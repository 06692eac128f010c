/** `ModInt`: elements of Z/nZ (algnuth/polynom.py, class ModInt).

    A value stores the residue `v` of the integer it was built from and the
    modulus `n`; objects are never mutated, so the class is a datatype.
    Python's `%` with a positive modulus agrees with Dafny's Euclidean `%`. */
module ModArith {
  import opened NumberTheory

  datatype ModInt = ModInt(v: int, n: int)

  /** The object invariant every constructor call establishes. */
  predicate Valid(x: ModInt) {
    x.n > 0 && 0 <= x.v < x.n
  }

  /** `ModInt(a, n)`: stores a mod n. */
  function Of(a: int, n: int): (x: ModInt)
    requires n > 0
    ensures Valid(x) && x.n == n && x.v == a % n
  {
    ModInt(a % n, n)
  }

  /** `__bool__`: nonzero residue. */
  predicate IsNonZero(x: ModInt) {
    x.v != 0
  }

  /** `a + b`; the source asserts equal moduli. */
  function Add(a: ModInt, b: ModInt): (r: ModInt)
    requires Valid(a) && Valid(b) && a.n == b.n
    ensures Valid(r) && r.n == a.n
  {
    Of(a.v + b.v, a.n)
  }

  /** `k + a` for a plain integer k (`__radd__`). */
  function AddInt(a: ModInt, k: int): (r: ModInt)
    requires Valid(a)
    ensures Valid(r) && r.n == a.n
  {
    Of(a.v + k, a.n)
  }

  /** `-a`. */
  function Neg(a: ModInt): (r: ModInt)
    requires Valid(a)
    ensures Valid(r) && r.n == a.n
  {
    Of(-a.v, a.n)
  }

  /** `a - b`: the source does not check the moduli here and keeps a's. */
  function Sub(a: ModInt, b: ModInt): (r: ModInt)
    requires Valid(a)
    ensures Valid(r) && r.n == a.n
  {
    Of(a.v - b.v, a.n)
  }

  /** `a * b` for two residues; the source asserts equal moduli. */
  function Mul(a: ModInt, b: ModInt): (r: ModInt)
    requires Valid(a) && Valid(b) && a.n == b.n
    ensures Valid(r) && r.n == a.n
  {
    Of(a.v * b.v, a.n)
  }

  /** `k * a` or `a * k` for a plain integer k. */
  function MulInt(a: ModInt, k: int): (r: ModInt)
    requires Valid(a)
    ensures Valid(r) && r.n == a.n
  {
    Of(k * a.v, a.n)
  }

  /** `a == b`, defined by the source as "a - b is zero". */
  predicate Equal(a: ModInt, b: ModInt)
    requires Valid(a)
  {
    !IsNonZero(Sub(a, b))
  }

  lemma EqualIsIdentity(a: ModInt, b: ModInt)
    requires Valid(a) && Valid(b) && a.n == b.n
    ensures Equal(a, b) <==> a == b
  {
    // a.v - b.v lies strictly between -n and n
    if a.v > b.v {
      ModSmall(a.v - b.v, a.n);
    } else if a.v < b.v {
      ModMultipleAdd(a.v - b.v, 1, a.n);
      ModSmall(a.v - b.v + a.n, a.n);
    } else {
      ModSmall(0, a.n);
    }
  }

  /** Building residues first and operating on them agrees with operating on
      the integers and reducing once: `Of` is a ring homomorphism. */
  lemma OfHomomorphism(a: int, b: int, n: int)
    requires n > 0
    ensures Add(Of(a, n), Of(b, n)) == Of(a + b, n)
    ensures Sub(Of(a, n), Of(b, n)) == Of(a - b, n)
    ensures Mul(Of(a, n), Of(b, n)) == Of(a * b, n)
    ensures Neg(Of(a, n)) == Of(-a, n)
  {
    ModAdd(a, b, n);
    ModSub(a, b, n);
    ModMul(a, b, n);
    ModSub(0, a, n);
    ModSmall(0, n);
  }

  /** The same for a plain integer operand: k + a and k * a reduce the
      integer result. */
  lemma OfIntHomomorphism(a: int, k: int, n: int)
    requires n > 0
    ensures AddInt(Of(a, n), k) == Of(a + k, n)
    ensures MulInt(Of(a, n), k) == Of(k * a, n)
  {
    ModAddLeft(a, k, n);
    ModMulLeft(a, k, n);
    MulCommInt(k, a % n);
    MulCommInt(k, a);
  }

  // ---------------------------------------------------------------------
  // extended_euclid

  function Sign(a: int): int { if a >= 0 then 1 else -1 }

  /** What the while loop of `extended_euclid` computes from a given state
      (rp, r, up, u, vp, v); the answer is (up, vp) once r is zero. */
  function EuclidSteps(rp: nat, r: nat, up: int, u: int, vp: int, v: int): (int, int)
    decreases r
  {
    if r == 0 then (up, vp)
    else
      var rr := rp / r;
      EuclidSteps(r, rp % r, u, up - rr * u, v, vp - rr * v)
  }

  /** The pair `extended_euclid(a, b)` returns. */
  function Bezout(a: int, b: int): (int, int) {
    EuclidSteps(Abs(a), Abs(b), Sign(a), 0, 0, Sign(b))
  }

  lemma {:induction false} EuclidStepsBezout(a: int, b: int, rp: nat, r: nat, up: int, u: int, vp: int, v: int)
    requires rp == a * up + b * vp && r == a * u + b * v
    ensures a * EuclidSteps(rp, r, up, u, vp, v).0 + b * EuclidSteps(rp, r, up, u, vp, v).1 == Gcd(rp, r)
    decreases r
  {
    if r != 0 {
      var rr := rp / r;
      RemainderCombination(a, b, rp, r, up, u, vp, v);
      EuclidStepsBezout(a, b, r, rp % r, u, up - rr * u, v, vp - rr * v);
    }
  }

  /** One step of the loop keeps both Bezout relations. */
  lemma RemainderCombination(a: int, b: int, rp: nat, r: nat, up: int, u: int, vp: int, v: int)
    requires r > 0 && rp == a * up + b * vp && r == a * u + b * v
    ensures rp % r == a * (up - (rp / r) * u) + b * (vp - (rp / r) * v)
    ensures rp % r == rp - (rp / r) * r
  {
    var rr := rp / r;
    assert rr * r == a * (rr * u) + b * (rr * v) by {
      assert rr * (a * u + b * v) == rr * (a * u) + rr * (b * v);
    }
  }

  /** Bezout's identity for the pair the source computes. */
  lemma BezoutIdentity(a: int, b: int)
    ensures a * Bezout(a, b).0 + b * Bezout(a, b).1 == Gcd(Abs(a), Abs(b))
  {
    EuclidStepsBezout(a, b, Abs(a), Abs(b), Sign(a), 0, 0, Sign(b));
  }

  /** `ModInt.extended_euclid(a, b)`: the loop keeps rp = a*up + b*vp and
      r = a*u + b*v while (rp, r) run through Euclid's remainders. */
  method ExtendedEuclid(a: int, b: int) returns (x: int, y: int)
    ensures a * x + b * y == Gcd(Abs(a), Abs(b))
    ensures (x, y) == Bezout(a, b)
  {
    var up, vp := Sign(a), 0;
    var u, v := 0, Sign(b);
    var rp: nat, r: nat := Abs(a), Abs(b);
    while r != 0
      invariant rp == a * up + b * vp && r == a * u + b * v
      invariant Gcd(rp, r) == Gcd(Abs(a), Abs(b))
      invariant EuclidSteps(rp, r, up, u, vp, v) == Bezout(a, b)
      decreases r
    {
      var rr := rp / r;
      RemainderCombination(a, b, rp, r, up, u, vp, v);
      var rem: nat := rp - rr * r;
      up := up - rr * u;
      vp := vp - rr * v;
      rp, r := r, rem;
      up, u := u, up;
      vp, v := v, vp;
    }
    x, y := up, vp;
  }

  // ---------------------------------------------------------------------
  // division

  /** `a / b` = a.v times the Bezout coefficient of b.v, mod n. */
  function Div(a: ModInt, b: ModInt): (r: ModInt)
    requires Valid(a) && Valid(b) && a.n == b.n
    ensures Valid(r) && r.n == a.n
  {
    Of(a.v * Bezout(b.v, b.n).0, a.n)
  }

  /** `k / a` for a plain integer k (`__rtruediv__`). */
  function DivInt(k: int, a: ModInt): (r: ModInt)
    requires Valid(a)
    ensures Valid(r) && r.n == a.n
  {
    Div(Of(k, a.n), a)
  }

  /** (x / y) * y == x whenever y.v is a unit mod n. */
  lemma DivMulCancel(x: ModInt, y: ModInt)
    requires Valid(x) && Valid(y) && x.n == y.n
    requires Gcd(y.v, y.n) == 1
    ensures Mul(Div(x, y), y) == x
  {
    var n := x.n;
    var (s, t) := Bezout(y.v, n);
    BezoutIdentity(y.v, n);
    assert y.v * s + n * t == 1;
    var q := Div(x, y);
    // q.v * y.v = (x.v * s mod n) * y.v == x.v * (s * y.v) = x.v * (1 - n t)  (mod n)
    calc {
      (q.v * y.v) % n;
      ((x.v * s) % n * y.v) % n;
      { ModMulLeft(x.v * s, y.v, n); }
      (x.v * s * y.v) % n;
      { CancelArith(x.v, s, y.v, n, t); }
      (x.v + (-(x.v * t)) * n) % n;
      { ModMultipleAdd(x.v, -(x.v * t), n); }
      x.v % n;
      { ModSmall(x.v, n); }
      x.v;
    }
    ModSmall(x.v, n);
  }

  lemma CancelArith(x: int, s: int, y: int, n: int, t: int)
    requires y * s + n * t == 1
    ensures x * s * y == x + (-(x * t)) * n
  {
    assert x * s * y == x * (y * s);
    assert x * (y * s) == x * (1 - n * t);
    assert x * (1 - n * t) == x - x * (n * t);
    assert x * (n * t) == (x * t) * n;
  }

  /** With a prime modulus, every nonzero residue is invertible. */
  lemma DivMulCancelPrime(x: ModInt, y: ModInt)
    requires Valid(x) && Valid(y) && x.n == y.n && IsPrime(y.n) && y.v != 0
    ensures Mul(Div(x, y), y) == x
  {
    PrimeCoprime(y.v, y.n);
    DivMulCancel(x, y);
  }

  /** Euclid's lemma: a prime dividing a product divides a factor. */
  lemma EuclidLemma(a: int, b: int, p: int)
    requires IsPrime(p) && (a * b) % p == 0
    ensures a % p == 0 || b % p == 0
  {
    if a % p != 0 {
      var a' := a % p;
      PrimeCoprime(a', p);
      BezoutIdentity(a', p);
      var (s, t) := Bezout(a', p);
      assert a' * s + p * t == 1;
      ModMulLeft(a, b, p);
      assert (a' * b) % p == 0;
      DivModUnique((b * t) * p, p, b * t, 0);
      DividesLinear(a' * b, (b * t) * p, s, p);
      assert s * (a' * b) + (b * t) * p == b * (a' * s + p * t);
    }
  }

  // ---------------------------------------------------------------------
  // __pow__

  /** x multiplied by itself k times; k = 0 gives the residue of 1. */
  function Power(x: ModInt, k: nat): (r: ModInt)
    requires Valid(x)
    ensures Valid(r) && r.n == x.n
    decreases k
  {
    if k == 0 then Of(1, x.n) else Mul(x, Power(x, k - 1))
  }

  lemma {:induction false} PowerValue(x: ModInt, k: nat)
    requires Valid(x)
    ensures Power(x, k).v == IntPow(x.v, k) % x.n
  {
    if k > 0 {
      PowerValue(x, k - 1);
      var i := IntPow(x.v, k - 1);
      calc {
        Power(x, k).v;
        (x.v * Power(x, k - 1).v) % x.n;
        (x.v * (i % x.n)) % x.n;
        { assert x.v * (i % x.n) == (i % x.n) * x.v; }
        ((i % x.n) * x.v) % x.n;
        { ModMulLeft(i, x.v, x.n); }
        (i * x.v) % x.n;
        { assert i * x.v == x.v * i; }
        IntPow(x.v, k) % x.n;
      }
    }
  }

  lemma {:induction false} IntPowAdd(b: int, i: nat, j: nat)
    ensures IntPow(b, i + j) == IntPow(b, i) * IntPow(b, j)
  {
    if i > 0 {
      IntPowAdd(b, i - 1, j);
      assert IntPow(b, i + j) == b * IntPow(b, i - 1 + j);
    }
  }

  lemma {:induction false} IntPowSquare(b: int, j: nat)
    ensures IntPow(b * b, j) == IntPow(b, 2 * j)
  {
    if j > 0 {
      IntPowSquare(b, j - 1);
      IntPowAdd(b, 2, 2 * (j - 1));
      assert IntPow(b, 2) == b * b;
    }
  }

  lemma {:induction false} IntPowMod(b: int, k: nat, n: int)
    requires n > 0
    ensures IntPow(b % n, k) % n == IntPow(b, k) % n
  {
    if k > 0 {
      IntPowMod(b, k - 1, n);
      calc {
        IntPow(b % n, k) % n;
        (b % n * IntPow(b % n, k - 1)) % n;
        { ModMulLeft(b, IntPow(b % n, k - 1), n); }
        (b * IntPow(b % n, k - 1)) % n;
        { assert b * IntPow(b % n, k - 1) == IntPow(b % n, k - 1) * b;
          ModMulLeft(IntPow(b % n, k - 1), b, n);
          ModMulLeft(IntPow(b, k - 1), b, n);
          assert IntPow(b, k - 1) * b == b * IntPow(b, k - 1); }
        (b * IntPow(b, k - 1)) % n;
      }
    }
  }

  /** The odd step of square-and-multiply: V A^e = (V A) A^(e - 1). */
  lemma PowOddStep(v: int, a: int, e: nat, n: int)
    requires n > 0 && e >= 1
    ensures ((v * a) % n * IntPow(a, e - 1)) % n == (v * IntPow(a, e)) % n
  {
    ModMulLeft(v * a, IntPow(a, e - 1), n);
    MulAssocInt(v, a, IntPow(a, e - 1));
  }

  /** The squaring step: V (A^2)^e = V A^(2e), computed on residues. */
  lemma PowSquareStep(v: int, a: int, e: nat, n: int)
    requires n > 0
    ensures (v * IntPow((a * a) % n, e)) % n == (v * IntPow(a, 2 * e)) % n
  {
    var w := IntPow((a * a) % n, e);
    ModMulLeft(w, v, n);
    IntPowMod(a * a, e, n);
    ModMulLeft(IntPow(a * a, e), v, n);
    MulCommInt(v, w);
    MulCommInt(v, IntPow(a * a, e));
    IntPowSquare(a, e);
  }

  /** `P ** k` by square-and-multiply, the source's loop. */
  method Pow(x: ModInt, k: nat) returns (r: ModInt)
    requires Valid(x)
    ensures r == Power(x, k)
    ensures r.v == IntPow(x.v, k) % x.n
  {
    var n := x.n;
    var V := Of(1, n);
    var A := x;
    var e := k;
    ModMulLeft(1, IntPow(x.v, k), n);
    while e != 0
      invariant Valid(V) && Valid(A) && V.n == n && A.n == n
      invariant (V.v * IntPow(A.v, e)) % n == IntPow(x.v, k) % n
      decreases e
    {
      if e % 2 == 1 {
        var V0 := V;
        V := Mul(V, A);
        PowOddStep(V0.v, A.v, e, n);
        e := e - 1;
      }
      assert (V.v * IntPow(A.v, e)) % n == IntPow(x.v, k) % n;
      assert e % 2 == 0;
      e := e / 2;
      if e == 0 {
        ModSmall(V.v, n);
        break;
      }
      var A0 := A;
      A := Mul(A, A);
      PowSquareStep(V.v, A0.v, e, n);
    }
    PowerValue(x, k);
    r := V;
    ModSmall(V.v, n);
    ModIdem(IntPow(x.v, k), n);
  }
}

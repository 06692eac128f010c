/** Elementary integer facts shared by every other module: greatest common
    divisor by Euclid's recursion, primality, integer powers, the integer
    square root that replaces the floating-point ones, and the congruence
    rules for Dafny's Euclidean `%`. */
module NumberTheory {

  /** gcd(a, b) by Euclid's recursion, the function Python's math.gcd
      computes on absolute values. */
  function Gcd(a: nat, b: nat): nat
    decreases b
  {
    if b == 0 then a else Gcd(b, a % b)
  }

  function Abs(x: int): nat { if x < 0 then -x else x }

  /** d divides x (written for positive d). */
  predicate Divides(d: int, x: int)
    requires d > 0
  {
    x % d == 0
  }

  predicate IsPrime(n: int) {
    n >= 2 && forall d :: 2 <= d < n ==> n % d != 0
  }

  function IntPow(b: int, e: nat): int
    decreases e
  {
    if e == 0 then 1 else b * IntPow(b, e - 1)
  }

  /** Integer square root by upward search from r. */
  function SqrtFrom(n: nat, r: nat): (s: nat)
    requires r * r <= n
    ensures s * s <= n < (s + 1) * (s + 1)
    decreases n - r
  {
    if (r + 1) * (r + 1) > n then r
    else
      assert r + 1 <= (r + 1) * (r + 1);
      SqrtFrom(n, r + 1)
  }

  /** The largest s with s * s <= n. */
  function IntSqrt(n: nat): (s: nat)
    ensures s * s <= n < (s + 1) * (s + 1)
  {
    SqrtFrom(n, 0)
  }

  // ---------------------------------------------------------------------
  // Congruences for Dafny's `%` with a positive modulus.

  /** The quotient and remainder are the unique ones. */
  lemma DivModUnique(x: int, p: int, q: int, r: int)
    requires p > 0 && 0 <= r < p && x == q * p + r
    ensures x % p == r && x / p == q
  {
    var q', r' := x / p, x % p;
    assert x == q' * p + r';
    assert (q - q') * p == r' - r;
    if q > q' {
      assert (q - q') * p >= p by { MulMono(q - q', p); }
    } else if q < q' {
      assert (q' - q) * p >= p by { MulMono(q' - q, p); }
    }
  }

  lemma MulMono(k: int, p: int)
    requires k >= 1 && p > 0
    ensures k * p >= p
  {
  }

  lemma ModMultipleAdd(a: int, k: int, p: int)
    requires p > 0
    ensures (a + k * p) % p == a % p
  {
    DivModUnique(a + k * p, p, a / p + k, a % p);
  }

  lemma ModAddLeft(a: int, b: int, p: int)
    requires p > 0
    ensures (a % p + b) % p == (a + b) % p
  {
    ModMultipleAdd(a % p + b, a / p, p);
  }

  lemma ModAdd(a: int, b: int, p: int)
    requires p > 0
    ensures (a % p + b % p) % p == (a + b) % p
  {
    ModAddLeft(a, b % p, p);
    ModAddLeft(b, a, p);
  }

  lemma ModSub(a: int, b: int, p: int)
    requires p > 0
    ensures (a % p - b % p) % p == (a - b) % p
  {
    var qa, qb := a / p, b / p;
    assert a % p - b % p == (a - b) + (qb - qa) * p by {
      assert a == a % p + qa * p;
      assert b == b % p + qb * p;
      assert (qb - qa) * p == qb * p - qa * p;
    }
    ModMultipleAdd(a - b, qb - qa, p);
  }

  lemma ModMulLeft(a: int, b: int, p: int)
    requires p > 0
    ensures (a % p * b) % p == (a * b) % p
  {
    var q := a / p;
    assert a * b == (a % p) * b + (q * b) * p by {
      assert a == a % p + q * p;
      assert a * b == (a % p + q * p) * b;
    }
    ModMultipleAdd(a % p * b, q * b, p);
  }

  lemma ModMul(a: int, b: int, p: int)
    requires p > 0
    ensures (a % p * (b % p)) % p == (a * b) % p
  {
    ModMulLeft(a, b % p, p);
    ModMulLeft(b, a, p);
  }

  lemma ModIdem(a: int, p: int)
    requires p > 0
    ensures (a % p) % p == a % p
  {
    DivModUnique(a % p, p, 0, a % p);
  }

  lemma ModSmall(a: int, p: int)
    requires 0 <= a < p
    ensures a % p == a
  {
    DivModUnique(a, p, 0, a);
  }

  // ---------------------------------------------------------------------
  // Residue arithmetic without division: for 0 <= a, b < p these agree with
  // (a + b) % p, (-a) % p and (a - b) % p, and keep the solver linear.

  function AddRes(a: int, b: int, p: int): int {
    if a + b < p then a + b else a + b - p
  }

  function NegRes(a: int, p: int): int {
    if a == 0 then 0 else p - a
  }

  function SubRes(a: int, b: int, p: int): int {
    if a >= b then a - b else a - b + p
  }

  lemma AddResMod(a: int, b: int, p: int)
    requires 0 <= a < p && 0 <= b < p
    ensures (a + b) % p == AddRes(a, b, p)
  {
    if a + b < p {
      ModSmall(a + b, p);
    } else {
      DivModUnique(a + b, p, 1, a + b - p);
    }
  }

  lemma NegResMod(a: int, p: int)
    requires 0 <= a < p
    ensures (-a) % p == NegRes(a, p)
  {
    if a == 0 {
      ModSmall(0, p);
    } else {
      DivModUnique(-a, p, -1, p - a);
    }
  }

  lemma SubResMod(a: int, b: int, p: int)
    requires 0 <= a < p && 0 <= b < p
    ensures (a - b) % p == SubRes(a, b, p)
  {
    if a >= b {
      ModSmall(a - b, p);
    } else {
      DivModUnique(a - b, p, -1, a - b + p);
    }
  }

  /** The residue laws the polynomial ring needs, stated on plain
      integers so that each pointwise step is cheap for the solver. */
  lemma AddResLaws(a: int, b: int, c: int, p: int)
    requires 0 <= a < p && 0 <= b < p && 0 <= c < p
    ensures 0 <= AddRes(a, b, p) < p && 0 <= SubRes(a, b, p) < p
    ensures AddRes(a, b, p) == AddRes(b, a, p)
    ensures AddRes(AddRes(a, b, p), c, p) == AddRes(a, AddRes(b, c, p), p)
    ensures AddRes(a, 0, p) == a && SubRes(a, a, p) == 0
    ensures AddRes(SubRes(a, b, p), b, p) == a
    ensures AddRes(a, b, p) == c <==> a == SubRes(c, b, p)
  {
  }

  /** Cancellation laws of residues: equal sums with a common summand,
      a zero difference, and moving summands across an equation. */
  lemma ResCancelLaws(a: int, b: int, c: int, e: int, p: int)
    requires 0 <= a < p && 0 <= b < p && 0 <= c < p && 0 <= e < p
    ensures AddRes(a, c, p) == AddRes(b, c, p) ==> a == b
    ensures SubRes(a, b, p) == 0 ==> a == b
    ensures AddRes(a, b, p) == AddRes(c, e, p) ==> SubRes(a, c, p) == SubRes(e, b, p)
  {
  }

  /** x mod p for p > 0: the residue in [0, p) congruent to x. Polynomial
      coefficients are specified with it, so that a proof can rewrite its
      argument with `ModEq` without reasoning about `%` itself. */
  function Mod(x: int, p: int): (r: int)
    requires p > 0
    ensures 0 <= r < p
  {
    x % p
  }

  lemma ModIsRem(x: int, p: int)
    requires p > 0
    ensures Mod(x, p) == x % p
  {
  }

  /** For residues, AddRes and NegRes are sums and negations mod p. */
  lemma AddResIsMod(a: int, b: int, p: int)
    requires 0 <= a < p && 0 <= b < p
    ensures Mod(a + b, p) == AddRes(a, b, p)
  {
    if a + b >= p {
      assert Mod(a + b - p, p) == a + b - p;
    }
  }

  lemma NegResIsMod(a: int, p: int)
    requires 0 <= a < p
    ensures Mod(-a, p) == NegRes(a, p)
  {
    if a > 0 {
      assert Mod(p - a, p) == p - a;
    }
  }

  /** The sum of two reduced values, as residues. */
  lemma AddResOfMod(x: int, y: int, p: int)
    requires p > 0
    ensures AddRes(Mod(x, p), Mod(y, p), p) == Mod(x + y, p)
  {
    ModIsRem(x, p);
    ModIsRem(y, p);
    ModIsRem(x + y, p);
    AddResMod(x % p, y % p, p);
    ModAdd(x, y, p);
  }

  /** Congruent summands give congruent sums. */
  lemma ModAddCong(a: int, b: int, a2: int, b2: int, p: int)
    requires p > 0 && Mod(a, p) == Mod(a2, p) && Mod(b, p) == Mod(b2, p)
    ensures Mod(a + b, p) == Mod(a2 + b2, p)
  {
    AddResOfMod(a, b, p);
    AddResOfMod(a2, b2, p);
  }

  /** Equal arguments, equal residues: the step that lets a proof rewrite
      the argument of Mod by integer arithmetic alone. */
  lemma ModEq(x: int, y: int, p: int)
    requires p > 0 && x == y
    ensures Mod(x, p) == Mod(y, p)
  {
  }

  /** A reduced factor on the right of a product. */
  lemma ModMulRight(a: int, b: int, p: int)
    requires p > 0
    ensures Mod(a * Mod(b, p), p) == Mod(a * b, p)
  {
    ModIsRem(b, p);
    RemMulRight(a, b, p);
    ModIsRem(a * (b % p), p);
    ModIsRem(a * b, p);
  }

  lemma RemMulRight(a: int, b: int, p: int)
    requires p > 0
    ensures (a * (b % p)) % p == (a * b) % p
  {
    ModMulLeft(b, a, p);
    assert a * (b % p) == (b % p) * a;
    assert a * b == b * a;
  }

  lemma MulAssocInt(a: int, b: int, c: int)
    ensures a * (b * c) == (a * b) * c
  {
  }

  /** Scaling a reduced product. */
  lemma ModMulAssoc(a: int, b: int, c: int, p: int)
    requires p > 0
    ensures Mod(a * Mod(b * c, p), p) == Mod((a * b) * c, p)
  {
    ModMulRight(a, b * c, p);
    MulAssocInt(a, b, c);
  }

  /** A residue sum times a factor. */
  lemma ModAddMul(x: int, y: int, c: int, p: int)
    requires 0 <= x < p && 0 <= y < p
    ensures Mod(AddRes(x, y, p) * c, p) == Mod(x * c + y * c, p)
  {
    AddResIsMod(x, y, p);
    ModMulRight(c, x + y, p);
    MulCommInt(AddRes(x, y, p), c);
    MulDistInt(x, y, c);
  }

  lemma MulDistInt(x: int, y: int, c: int)
    ensures c * (x + y) == x * c + y * c
  {
  }

  lemma MulCommInt(x: int, y: int)
    ensures x * y == y * x
  {
  }

  /** One Horner step on a reduced value: v x + c with v = h mod p. */
  lemma ModHornerStep(h: int, x: int, c: int, p: int)
    requires p > 0
    ensures Mod(Mod(h, p) * x + c, p) == Mod(c + x * h, p)
  {
    ModIsRem(h, p);
    ModIsRem(h % p * x + c, p);
    ModIsRem(c + x * h, p);
    RemHornerStep(h, x, c, p);
  }

  lemma RemHornerStep(h: int, x: int, c: int, p: int)
    requires p > 0
    ensures ((h % p) * x + c) % p == (c + x * h) % p
  {
    ModMulLeft(h, x, p);
    ModAddLeft((h % p) * x, c, p);
    ModAddLeft(h * x, c, p);
    assert h * x + c == c + x * h;
  }

  /** A reduced scaled term times a factor. */
  lemma ModScaleMul(c: int, b: int, e: int, p: int)
    requires p > 0
    ensures Mod(Mod(c * b, p) * e, p) == Mod(c * (b * e), p)
  {
    ModMulRight(e, c * b, p);
    MulCommInt(e, Mod(c * b, p));
    MulCommInt(e, c * b);
    MulAssocInt(c, b, e);
  }

  // ---------------------------------------------------------------------
  // gcd

  lemma {:induction false} GcdDivides(a: nat, b: nat)
    requires a > 0 || b > 0
    ensures Gcd(a, b) > 0
    ensures a % Gcd(a, b) == 0 && b % Gcd(a, b) == 0
    decreases b
  {
    if b == 0 {
      ModSmall(0, a);
      DivModUnique(a, a, 1, 0);
    } else {
      GcdDivides(b, a % b);
      // a = (a / b) * b + a % b, and the gcd divides both b and a % b
      assert a == (a / b) * b + a % b;
      DividesLinear(b, a % b, a / b, Gcd(b, a % b));
    }
  }

  /** A common divisor of x and y divides k * x + y. */
  lemma DividesLinear(x: int, y: int, k: int, g: int)
    requires g > 0 && x % g == 0 && y % g == 0
    ensures (k * x + y) % g == 0
  {
    var qx, qy := x / g, y / g;
    assert x == qx * g && y == qy * g;
    assert k * x == (k * qx) * g;
    assert k * x + y == (k * qx + qy) * g;
    DivModUnique(k * x + y, g, k * qx + qy, 0);
  }

  lemma {:induction false} GcdBound(a: nat, b: nat)
    requires a > 0
    ensures Gcd(a, b) <= a
  {
    if a > 0 || b > 0 {
      GcdDivides(a, b);
      var g := Gcd(a, b);
      DivBound(a, g);
    }
  }

  /** A positive multiple of g is at least g. */
  lemma DivBound(a: int, g: int)
    requires a > 0 && g > 0 && a % g == 0
    ensures g <= a
  {
    assert a == (a / g) * g;
    MulMono(a / g, g);
  }

  /** A residue v with 0 < v < p is coprime to a prime p. */
  lemma PrimeCoprime(v: int, p: int)
    requires IsPrime(p) && 0 < v < p
    ensures Gcd(v, p) == 1
  {
    GcdDivides(v, p);
    var g := Gcd(v, p);
    GcdBound(v, p);
  }

  /** a and b share no divisor d >= 2. */
  ghost predicate Coprime(a: int, b: int) {
    forall d :: d >= 2 && Divides(d, a) ==> !Divides(d, b)
  }

  lemma CoprimeSym(a: int, b: int)
    requires Coprime(a, b)
    ensures Coprime(b, a)
  {
  }

  /** A common divisor of a and b divides gcd(a, b). */
  lemma {:induction false} CommonDividesGcd(a: nat, b: nat, d: int)
    requires d > 0 && a % d == 0 && b % d == 0
    ensures Gcd(a, b) % d == 0
    decreases b
  {
    if b > 0 {
      assert a % b == -(a / b) * b + a;
      DividesLinear(b, a, -(a / b), d);
      CommonDividesGcd(b, a % b, d);
    }
  }

  /** gcd(a, b) = 1 exactly when a and b share no divisor d >= 2. */
  lemma GcdOneCoprime(a: nat, b: nat)
    ensures Gcd(a, b) == 1 <==> Coprime(a, b)
  {
    if Gcd(a, b) == 1 {
      forall d | d >= 2 && Divides(d, a)
        ensures !Divides(d, b)
      {
        if Divides(d, b) {
          CommonDividesGcd(a, b, d);
          ModSmall(1, d);
        }
      }
    }
    if a == 0 && b == 0 {
      ModSmall(0, 2);
      assert Divides(2, a) && Divides(2, b);
    } else if Coprime(a, b) {
      GcdDivides(a, b);
      var g := Gcd(a, b);
      if g >= 2 {
        assert Divides(g, a) && Divides(g, b);
      }
    }
  }
}

/** Fermat's little theorem and the square roots of 1 modulo a prime:
    the facts a Miller-Rabin test relies on when it accepts a prime. The
    proof goes through the binomial theorem, (x + 1)^p = x^p + 1 mod p. */
module Fermat {
  import opened NumberTheory
  import opened ModArith

  /** The binomial coefficient by Pascal's rule. */
  function Binom(n: nat, k: nat): nat
    decreases n
  {
    if k == 0 then 1
    else if n == 0 then 0
    else Binom(n - 1, k - 1) + Binom(n - 1, k)
  }

  lemma {:induction false} BinomAbove(n: nat, k: nat)
    requires k > n
    ensures Binom(n, k) == 0
    decreases n
  {
    if n > 0 {
      BinomAbove(n - 1, k - 1);
      BinomAbove(n - 1, k);
    }
  }

  lemma {:induction false} BinomDiag(n: nat)
    ensures Binom(n, n) == 1
  {
    if n > 0 {
      BinomDiag(n - 1);
      BinomAbove(n - 1, n);
    }
  }

  lemma {:induction false} BinomOne(n: nat)
    ensures Binom(n, 1) == n
  {
    if n > 0 {
      BinomOne(n - 1);
    }
  }

  /** The absorption identity k C(n, k) = n C(n - 1, k - 1). */
  lemma {:induction false} Absorption(n: nat, k: nat)
    requires n >= 1 && k >= 1
    ensures k * Binom(n, k) == n * Binom(n - 1, k - 1)
    decreases n
  {
    if k == 1 {
      BinomOne(n);
    } else if n == 1 {
      BinomAbove(0, k - 1);
      BinomAbove(0, k);
    } else {
      Absorption(n - 1, k - 1);
      Absorption(n - 1, k);
      AbsorptionArith(n, k, Binom(n, k), Binom(n - 1, k - 1), Binom(n - 1, k),
        Binom(n - 2, k - 2), Binom(n - 2, k - 1));
    }
  }

  lemma AbsorptionArith(n: int, k: int, B: int, a: int, b: int, c: int, d: int)
    requires B == a + b && a == c + d
    requires (k - 1) * a == (n - 1) * c && k * b == (n - 1) * d
    ensures k * B == n * a
  {
    assert k * B == k * a + k * b;
    assert k * a == (k - 1) * a + a;
    assert (n - 1) * c + (n - 1) * d == (n - 1) * a;
  }

  /** A prime p divides C(p, k) for 0 < k < p. */
  lemma PrimeDividesBinom(p: int, k: nat)
    requires IsPrime(p) && 0 < k < p
    ensures Binom(p, k) % p == 0
  {
    Absorption(p, k);
    var c := Binom(p - 1, k - 1);
    DivModUnique(p * c, p, c, 0);
    assert (k * Binom(p, k)) % p == 0;
    ModSmall(k, p);
    EuclidLemma(k, Binom(p, k), p);
  }

  /** The partial sum of C(n, i) x^i over i < j. */
  function BinomSum(n: nat, x: int, j: nat): int
    decreases j
  {
    if j == 0 then 0 else BinomSum(n, x, j - 1) + Binom(n, j - 1) * IntPow(x, j - 1)
  }

  /** Pascal's rule summed: row n + 1 is row n plus x times row n shifted. */
  lemma {:induction false} PascalSum(n: nat, x: int, j: nat)
    ensures BinomSum(n + 1, x, j + 1) == BinomSum(n, x, j + 1) + x * BinomSum(n, x, j)
    decreases j
  {
    if j > 0 {
      PascalSum(n, x, j - 1);
      assert IntPow(x, j) == x * IntPow(x, j - 1);
      PascalArith(x, Binom(n, j - 1), Binom(n, j), IntPow(x, j - 1), IntPow(x, j),
        BinomSum(n, x, j - 1), BinomSum(n, x, j), BinomSum(n, x, j + 1),
        BinomSum(n + 1, x, j), BinomSum(n + 1, x, j + 1));
    }
  }

  lemma PascalArith(x: int, u: int, v: int, xj: int, xx: int,
                    S0: int, S1: int, S2: int, L1: int, L2: int)
    requires xx == x * xj && S1 == S0 + u * xj && S2 == S1 + v * xx
    requires L1 == S1 + x * S0 && L2 == L1 + (u + v) * xx
    ensures L2 == S2 + x * S1
  {
    assert (u + v) * xx == u * xx + v * xx;
    assert u * xx == x * (u * xj);
    assert x * S1 == x * S0 + x * (u * xj);
  }

  /** The binomial theorem: (x + 1)^n = sum of C(n, i) x^i. */
  lemma {:induction false} BinomialTheorem(n: nat, x: int)
    ensures BinomSum(n, x, n + 1) == IntPow(x + 1, n)
    decreases n
  {
    if n > 0 {
      BinomialTheorem(n - 1, x);
      PascalSum(n - 1, x, n);
      BinomAbove(n - 1, n);
      var S := BinomSum(n - 1, x, n);
      assert BinomSum(n - 1, x, n + 1) == S;
      assert BinomSum(n, x, n + 1) == S + x * S;
      assert IntPow(x + 1, n) == (x + 1) * S;
    }
  }

  /** Below the last term, row p of the sum is 1 mod p. */
  lemma {:induction false} BinomSumPrime(p: int, x: int, j: nat)
    requires IsPrime(p) && 1 <= j <= p
    ensures BinomSum(p, x, j) % p == 1
    decreases j
  {
    if j == 1 {
      assert BinomSum(p, x, 1) == 1;
      ModSmall(1, p);
    } else {
      BinomSumPrime(p, x, j - 1);
      PrimeDividesBinom(p, j - 1);
      var c := Binom(p, j - 1);
      var t := c * IntPow(x, j - 1);
      ModMulLeft(c, IntPow(x, j - 1), p);
      ModSmall(0, p);
      ModAdd(BinomSum(p, x, j - 1), t, p);
      ModSmall(1, p);
    }
  }

  /** (x + 1)^p = x^p + 1 mod p. */
  lemma FreshmanStep(p: int, x: int)
    requires IsPrime(p)
    ensures IntPow(x + 1, p) % p == (IntPow(x, p) + 1) % p
  {
    BinomialTheorem(p, x);
    BinomDiag(p);
    BinomSumPrime(p, x, p);
    assert BinomSum(p, x, p + 1) == BinomSum(p, x, p) + IntPow(x, p);
    ModAdd(BinomSum(p, x, p), IntPow(x, p), p);
    ModAdd(1, IntPow(x, p), p);
    ModSmall(1, p);
  }

  /** x^p = x mod p for natural x. */
  lemma {:induction false} FermatPow(p: int, x: nat)
    requires IsPrime(p)
    ensures IntPow(x, p) % p == x % p
    decreases x
  {
    if x == 0 {
      assert IntPow(0, p) == 0 * IntPow(0, p - 1);
    } else {
      FermatPow(p, x - 1);
      FreshmanStep(p, x - 1);
      ModAddLeft(IntPow(x - 1, p), 1, p);
      ModAddLeft(x - 1, 1, p);
    }
  }

  /** Fermat's little theorem: a^(p - 1) = 1 mod p when p does not divide a. */
  lemma FermatLittle(p: int, a: int)
    requires IsPrime(p) && a % p != 0
    ensures IntPow(a, p - 1) % p == 1
  {
    var b := a % p;
    FermatPow(p, b);
    ModSmall(b, p);
    var t := IntPow(b, p - 1);
    assert IntPow(b, p) == b * t;
    // p divides b t - b = b (t - 1)
    ModSub(b * t, b, p);
    ModSmall(0, p);
    assert (b * (t - 1)) % p == 0 by {
      assert b * (t - 1) == b * t - b;
    }
    EuclidLemma(b, t - 1, p);
    assert t - 1 == ((t - 1) / p) * p;
    DivModUnique(t, p, (t - 1) / p, 1);
    IntPowMod(a, p - 1, p);
  }

  /** The only square roots of 1 modulo a prime are 1 and -1. */
  lemma SqrtOfOne(p: int, x: int)
    requires IsPrime(p) && 0 <= x < p && (x * x) % p == 1
    ensures x == 1 || x == p - 1
  {
    if x == 0 {
      ModSmall(0, p);
      assert false;
    }
    ModSmall(1, p);
    ModSub(x * x, 1, p);
    ModSmall(0, p);
    assert (x - 1) * (x + 1) == x * x - 1;
    EuclidLemma(x - 1, x + 1, p);
    if (x - 1) % p == 0 {
      ModSmall(x - 1, p);
    } else if x + 1 < p {
      ModSmall(x + 1, p);
      assert false;
    }
  }
}

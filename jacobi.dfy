/** `expsign` and Jacobi's symbol `jacobi`, computed by the reduction
    the source hard-codes: the second supplementary law for 2, factoring
    out powers of 2, and the reciprocity law for two odd arguments. */
module Jacobi {
  import opened NumberTheory
  import opened ModArith
  import opened Wrappers

  // ---------------------------------------------------------------------
  // expsign

  /** `sign ** exp` for a sign of +1 or -1; None where the source's
      assertion `sign == -1` fails. */
  function ExpSign(sign: int, exp: int): (r: Option<int>)
    ensures r.Some? <==> sign == 1 || sign == -1
    ensures r.Some? ==> r.value == 1 || r.value == -1
  {
    if sign == 1 then Some(1)
    else if sign == -1 then Some(if exp % 2 != 0 then -1 else 1)
    else None
  }

  lemma {:induction false} NegOnePow(e: nat)
    ensures IntPow(-1, e) == if e % 2 == 0 then 1 else -1
  {
    if e > 0 {
      NegOnePow(e - 1);
    }
  }

  lemma {:induction false} OnePow(e: nat)
    ensures IntPow(1, e) == 1
  {
    if e > 0 {
      OnePow(e - 1);
    }
  }

  /** expsign agrees with the power it optimises. */
  lemma ExpSignPower(sign: int, exp: nat)
    requires sign == 1 || sign == -1
    ensures ExpSign(sign, exp) == Some(IntPow(sign, exp))
  {
    if sign == 1 {
      OnePow(exp);
    } else {
      NegOnePow(exp);
    }
  }

  // ---------------------------------------------------------------------
  // Where jacobi terminates

  /** The arguments for which jacobi returns: its assertion demands an
      odd n; m = 2 returns at once, and otherwise the remainder m mod n
      must be coprime to n with n >= 3 (for n = 1, or a common factor,
      the halving loop meets 0 and never ends). */
  ghost predicate JacobiDomain(m: int, n: int) {
    n % 2 == 1 && (m == 2 || (n >= 3 && Coprime(m % n, n)))
  }

  /** m = o * 2^q with o odd: what the halving loop of jacobi leaves in
      its variables m and q. */
  function OddPart(m: nat): (r: (nat, nat))
    requires m > 0
    ensures r.0 % 2 == 1 && r.0 <= m && m == r.0 * IntPow(2, r.1)
    decreases m
  {
    if m % 2 == 1 then (m, 0)
    else
      var t := OddPart(m / 2);
      assert m == 2 * (m / 2);
      assert IntPow(2, t.1 + 1) == 2 * IntPow(2, t.1);
      (t.0, t.1 + 1)
  }

  lemma CoprimeZero(n: int)
    requires n >= 2
    ensures !Coprime(0, n)
  {
    ModSmall(0, n);
    DivModUnique(n, n, 1, 0);
    assert Divides(n, 0) && Divides(n, n);
  }

  /** An odd factor o of x keeps x's coprimality to n. */
  lemma CoprimeFactor(x: int, o: int, k: int, n: int)
    requires x == k * o && Coprime(x, n)
    ensures Coprime(o, n)
  {
    forall d | d >= 2 && Divides(d, o)
      ensures !Divides(d, n)
    {
      ModSmall(0, d);
      DividesLinear(o, 0, k, d);
      assert Divides(d, x);
    }
  }

  /** A common divisor of o and n mod o divides n. */
  lemma DividesFromRemainder(o: int, n: int, d: int)
    requires o >= 1 && d >= 2 && (n % o) % d == 0 && o % d == 0
    ensures n % d == 0
  {
    var q, r := n / o, n % o;
    assert n == q * o + r;
    DividesLinear(o, r, q, d);
  }

  /** Coprimality survives one Euclidean step: gcd(n mod o, o) = gcd(o, n). */
  lemma CoprimeRemainder(o: int, n: int)
    requires o >= 1 && Coprime(o, n)
    ensures Coprime(n % o, o)
  {
    forall d | d >= 2 && Divides(d, n % o)
      ensures !Divides(d, o)
    {
      if Divides(d, o) {
        DividesFromRemainder(o, n, d);
        assert Divides(d, n);
      }
    }
  }

  /** A recursive call of jacobi stays in the domain. */
  lemma DomainStep(m: int, n: int)
    requires JacobiDomain(m, n) && m != 2
    ensures m % n > 0
    ensures OddPart(m % n).0 != 1 ==> JacobiDomain(n, OddPart(m % n).0)
  {
    if m % n == 0 {
      CoprimeZero(n);
      assert false;
    }
    var t := OddPart(m % n);
    CoprimeFactor(m % n, t.0, IntPow(2, t.1), n);
    CoprimeSym(t.0, n);
    CoprimeRemainder(t.0, n);
  }

  // ---------------------------------------------------------------------
  // jacobi

  /** The value `jacobi(m, n)` returns. */
  function JacobiOf(m: int, n: int): (r: int)
    requires JacobiDomain(m, n)
    ensures r == 1 || r == -1
    decreases n, if m == 2 then 0 else 1
  {
    if m == 2 then
      if n % 8 == 1 || n % 8 == 7 then 1 else -1
    else
      DomainStep(m, n);
      var t := OddPart(m % n);
      var s := ExpSign(JacobiOf(2, n), t.1).value;
      if t.0 == 1 then s
      else
        var q, j := (if n % 4 == 3 && t.0 % 4 == 3 then -1 else 1), JacobiOf(n, t.0);
        UnitProduct(s, q, j);
        s * q * j
  }

  lemma UnitProduct(s: int, q: int, j: int)
    requires s == 1 || s == -1
    requires q == 1 || q == -1
    requires j == 1 || j == -1
    ensures s * q * j == 1 || s * q * j == -1
  {
  }

  /** `jacobi`: None where its assertion that n is odd fails. The
      source's bit operations `m & 1` and `m >>= 1` act on a non-negative
      m and are written as `m % 2` and `m / 2`. */
  method Jacobi(m0: int, n: int) returns (r: Option<int>)
    requires n % 2 == 0 || JacobiDomain(m0, n)
    ensures n % 2 == 0 ==> r == None
    ensures n % 2 == 1 ==> r == Some(JacobiOf(m0, n))
    decreases n, if m0 == 2 then 0 else 1
  {
    if n % 2 == 0 {
      return None;
    }
    if m0 == 2 {
      if n % 8 == 1 || n % 8 == 7 {
        return Some(1);
      }
      return Some(-1);
    }
    DomainStep(m0, n);
    var m := m0 % n;
    var q := 0;
    while m % 2 == 0
      invariant 0 < m && OddPart(m0 % n) == (OddPart(m).0, OddPart(m).1 + q)
      decreases m
    {
      m := m / 2;
      q := q + 1;
    }
    assert OddPart(m0 % n) == (m, q);
    var t := Jacobi(2, n);
    var s := ExpSign(t.value, q).value;
    if m == 1 {
      return Some(s);
    }
    var u := Jacobi(n, m);
    r := Some(s * (if n % 4 == 3 && m % 4 == 3 then -1 else 1) * u.value);
  }

  // ---------------------------------------------------------------------
  // Laws of the symbol

  /** (8k + r)^2 - 1 = 8 (8k^2 + 2kr) + (r^2 - 1). */
  lemma SquareExpand(k: int, r: int)
    ensures (8 * k + r) * (8 * k + r) == 64 * (k * k) + 16 * (k * r) + r * r
  {
  }

  lemma SquarePositive(n: int)
    requires n != 0
    ensures n * n >= 1
  {
    if n > 0 {
      MulMono(n, n);
    } else {
      MulMono(-n, -n);
      assert n * n == (-n) * (-n);
    }
  }

  lemma OddResidue(n: int)
    requires n % 2 == 1
    ensures n % 8 % 2 == 1
  {
    var k, r := n / 8, n % 8;
    assert n == 2 * (4 * k) + r;
    DivModUnique(n, 2, 4 * k + r / 2, r % 2);
  }

  lemma OddSquareFrom(n: int, k: int, r: int)
    requires n == 8 * k + r && r == n % 8 && r % 2 == 1 && n * n >= 1
    ensures (n * n - 1) % 8 == 0
    ensures ((n * n - 1) / 8) % 2 == if r == 1 || r == 7 then 0 else 1
  {
    var c := if r == 1 then 0 else if r == 3 then 1 else if r == 5 then 3 else 6;
    assert r * r == 8 * c + 1 by {
      if r == 1 {
      } else if r == 3 {
      } else if r == 5 {
      } else {
        assert r == 7;
      }
    }
    SquareExpand(k, r);
    var h := 4 * (k * k) + k * r;
    OddSquareLinear(n * n, k * k, k * r, r * r, c, h);
  }

  lemma OddSquareLinear(nn: int, kk: int, kr: int, rr: int, c: int, h: int)
    requires nn == 64 * kk + 16 * kr + rr && rr == 8 * c + 1 && h == 4 * kk + kr
    requires c == 0 || c == 1 || c == 3 || c == 6
    ensures (nn - 1) % 8 == 0
    ensures ((nn - 1) / 8) % 2 == c % 2
  {
    assert nn - 1 == 8 * (2 * h + c);
    DivModUnique(nn - 1, 8, 2 * h + c, 0);
    DivModUnique(2 * h + c, 2, h + c / 2, c % 2);
  }

  /** The odd square n^2 is 1 mod 8, and (n^2 - 1) / 8 is even exactly
      when n is 1 or 7 mod 8. */
  lemma OddSquare(n: int)
    requires n % 2 == 1
    ensures n * n >= 1 && (n * n - 1) % 8 == 0
    ensures ((n * n - 1) / 8) % 2 == if n % 8 == 1 || n % 8 == 7 then 0 else 1
  {
    SquarePositive(n);
    OddResidue(n);
    OddSquareFrom(n, n / 8, n % 8);
  }

  /** The second supplementary law: (2/n) = (-1)^((n^2 - 1) / 8). */
  lemma JacobiTwo(n: int)
    requires n % 2 == 1
    ensures var e := (n * n - 1) / 8; e >= 0 && JacobiOf(2, n) == IntPow(-1, e)
  {
    OddSquare(n);
    NegOnePow((n * n - 1) / 8);
  }

  /** (1/n) = 1. */
  lemma JacobiOne(n: int)
    requires n % 2 == 1 && n >= 3
    ensures JacobiDomain(1, n) && JacobiOf(1, n) == 1
  {
    ModSmall(1, n);
    forall d | d >= 2 && Divides(d, 1)
      ensures false
    {
      ModSmall(1, d);
    }
    assert OddPart(1) == (1, 0);
  }

  /** The symbol depends only on the residue of m modulo n. */
  lemma JacobiPeriodic(m: int, k: int, n: int)
    requires JacobiDomain(m, n) && n >= 3
    ensures JacobiDomain(m + k * n, n)
    ensures JacobiOf(m + k * n, n) == JacobiOf(m, n)
  {
    ModMultipleAdd(m, k, n);
    ModMultipleAdd(2, k, n);
    ModSmall(2, n);
    if m == 2 || m + k * n == 2 {
      assert Coprime(2 % n, n) by {
        forall d | d >= 2 && Divides(d, 2)
          ensures !Divides(d, n)
        {
          if d > 2 {
            ModSmall(2, d);
          }
        }
      }
      assert OddPart(2) == (1, 1) by {
        assert OddPart(1) == (1, 0);
      }
    }
  }

  /** Reciprocity for two odd coprime arguments:
      (m/n)(n/m) = -1 exactly when both are 3 mod 4. */
  lemma JacobiReciprocity(m: int, n: int)
    requires m >= 3 && n >= 3 && m != n && m % 2 == 1 && n % 2 == 1 && Coprime(m, n)
    ensures JacobiDomain(m, n) && JacobiDomain(n, m)
    ensures JacobiOf(m, n) * JacobiOf(n, m) == if m % 4 == 3 && n % 4 == 3 then -1 else 1
  {
    if m < n {
      ReciprocityStep(m, n);
    } else {
      CoprimeSym(m, n);
      ReciprocityStep(n, m);
    }
  }

  /** For odd 3 <= m < n the source applies reciprocity directly. */
  lemma JacobiOddBelow(m: int, n: int)
    requires 3 <= m < n && m % 2 == 1 && n % 2 == 1 && Coprime(m, n)
    ensures JacobiDomain(m, n) && JacobiDomain(n, m)
    ensures JacobiOf(m, n) == (if n % 4 == 3 && m % 4 == 3 then -1 else 1) * JacobiOf(n, m)
  {
    ModSmall(m, n);
    CoprimeSym(m, n);
    CoprimeRemainder(m, n);
    assert OddPart(m) == (m, 0);
  }

  lemma ReciprocityStep(m: int, n: int)
    requires 3 <= m < n && m % 2 == 1 && n % 2 == 1 && Coprime(m, n)
    ensures JacobiDomain(m, n) && JacobiDomain(n, m)
    ensures JacobiOf(m, n) * JacobiOf(n, m) == if m % 4 == 3 && n % 4 == 3 then -1 else 1
  {
    JacobiOddBelow(m, n);
  }

  lemma ExpSignSucc(sign: int, q: nat)
    requires sign == 1 || sign == -1
    ensures ExpSign(sign, q + 1).value == sign * ExpSign(sign, q).value
  {
  }

  /** Factoring a 2 out of an even residue: (2h/n) = (2/n)(h/n). */
  lemma JacobiFactorTwo(h: int, n: int)
    requires n % 2 == 1 && 0 < 2 * h < n && Coprime(2 * h, n)
    ensures JacobiDomain(2 * h, n) && JacobiDomain(h, n)
    ensures JacobiOf(2 * h, n) == JacobiOf(2, n) * JacobiOf(h, n)
  {
    ModSmall(2 * h, n);
    ModSmall(h, n);
    CoprimeFactor(2 * h, h, 2, n);
    assert OddPart(2 * h) == (OddPart(h).0, OddPart(h).1 + 1) by {
      assert (2 * h) / 2 == h;
    }
    ExpSignSucc(JacobiOf(2, n), OddPart(h).1);
    if h == 2 {
      assert OddPart(2) == (1, 1) by {
        assert OddPart(1) == (1, 0);
      }
    }
  }
}

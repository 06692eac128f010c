/** `sieve`, the sieve of Eratosthenes over a list of flags that the
    source updates in place by slice assignment. */
module Sieve {
  import opened NumberTheory
  import opened Wrappers

  /** round(sqrt(n)): the integer nearest to the square root. A square
      root of an integer is never a half-integer, so no tie arises. */
  function RoundSqrt(n: nat): (r: nat)
    ensures IntSqrt(n) <= r <= n
    ensures 4 * n < (2 * r + 1) * (2 * r + 1)
    ensures r == 0 || (2 * r - 1) * (2 * r - 1) < 4 * n
  {
    var s := IntSqrt(n);
    if n > s * s + s then
      assert (2 * s + 3) * (2 * s + 3) == 4 * ((s + 1) * (s + 1)) + 4 * s + 5;
      s + 1
    else
      assert (2 * s + 1) * (2 * s + 1) == 4 * (s * s + s) + 1;
      assert s >= 1 ==> (2 * s - 1) * (2 * s - 1) == 4 * (s * s) - 4 * s + 1;
      assert s <= s * s by {
        if s >= 1 { MulMono(s, s); }
      }
      s
  }

  /** No d with 2 <= d < x and d < i divides i: what a flag says after
      the sieve has crossed out the multiples of every d < x. */
  ghost predicate NoSmallDivisor(i: int, x: int) {
    forall d :: 2 <= d < x && d < i ==> i % d != 0
  }

  lemma DividesTrans(d: int, x: int, i: int)
    requires d > 0 && x > 0 && x % d == 0 && i % x == 0
    ensures i % d == 0
  {
    var a, b := x / d, i / x;
    assert i == b * x && x == a * d;
    assert i == (b * a) * d;
    DivModUnique(i, d, b * a, 0);
  }

  /** A multiple of x above x is at least 2x. */
  lemma MultipleAbove(i: int, x: int)
    requires x > 0 && x < i && i % x == 0
    ensures 2 * x <= i
  {
    ModMultipleAdd(i, -1, x);
    DivBound(i - x, x);
  }

  /** One round of the sieve: if x is still flagged its multiples from 2x
      on are crossed out; if it is not, a smaller divisor of x already
      crossed out every multiple of x. */
  lemma SieveRound(i: int, x: int)
    requires 2 <= x && 2 <= i
    ensures NoSmallDivisor(i, x + 1) ==
            (NoSmallDivisor(i, x) && (NoSmallDivisor(x, x) ==> !(2 * x <= i && i % x == 0)))
  {
    if NoSmallDivisor(i, x) && x < i && i % x == 0 {
      MultipleAbove(i, x);
      if !NoSmallDivisor(x, x) {
        var d :| 2 <= d < x && d < x && x % d == 0;
        DividesTrans(d, x, i);
        assert false;
      }
    }
  }

  lemma MulMono2(a: int, b: int, c: int, d: int)
    requires 0 <= a <= b && 0 <= c <= d
    ensures a * c <= b * d
  {
    assert a * c <= b * c;
    assert b * c <= b * d;
  }

  /** Of two factors of a product below x * x, one is below x. */
  lemma SmallFactor(d: int, e: int, x: int, n: int)
    requires d >= 0 && e >= 0 && x >= 0 && d * e <= n < x * x
    ensures d < x || e < x
  {
    if d >= x && e >= x {
      MulMono2(x, d, x, e);
      assert false;
    }
  }

  /** Once x * x > n, every composite i <= n has a divisor below x. */
  lemma CompositeSmallDivisor(i: int, x: int, n: int)
    requires 2 <= i <= n && x >= 0 && n < x * x && !IsPrime(i)
    ensures exists d :: 2 <= d < x && d < i && i % d == 0
  {
    var d :| 2 <= d < i && i % d == 0;
    var c := CofactorSmall(i, d, x, n);
  }

  /** The divisor d or its cofactor i / d is below x. */
  lemma CofactorSmall(i: int, d: int, x: int, n: int) returns (c: int)
    requires 2 <= d < i <= n && i % d == 0 && x >= 0 && n < x * x
    ensures 2 <= c < x && c < i && i % c == 0
  {
    var e := i / d;
    assert i == e * d;
    MultipleAbove(i, d);
    assert e >= 2 by {
      if e <= 1 {
        MulMono2(e, 1, d, d);
        assert false;
      }
    }
    assert 2 * e <= i by {
      MulMono2(e, e, 2, d);
    }
    DivModUnique(i, e, d, 0);
    SmallFactor(d, e, x, n);
    c := if d < x then d else e;
  }

  /** With x * x > n the flags left are exactly the primes. */
  lemma SieveComplete(i: int, x: int, n: int)
    requires 2 <= i <= n && x >= 0 && n < x * x
    ensures NoSmallDivisor(i, x) <==> IsPrime(i)
  {
    if !IsPrime(i) {
      CompositeSmallDivisor(i, x, n);
    }
  }

  /** The slice assignment `l[2 * x::x] = [False] * (n // x - 1)`: it
      writes the multiples of x from 2x to n, and there are exactly
      n // x - 1 of them, so the lengths agree and Python raises nothing. */
  method CrossOut(l: array<bool>, x: int, n: int) returns (count: int)
    requires l.Length == n + 1 && 2 <= x <= n
    modifies l
    ensures count == n / x - 1
    ensures forall k :: 0 <= k < l.Length ==>
              l[k] == (old(l[k]) && !(2 * x <= k && k % x == 0))
  {
    var j := 2 * x;
    count := 0;
    while j <= n
      invariant 2 * x <= j <= n + x && j == (count + 2) * x
      invariant forall k :: 0 <= k < l.Length ==>
                  l[k] == (old(l[k]) && !(2 * x <= k < j && k % x == 0))
      decreases n - j
    {
      forall k | j < k < j + x
        ensures k % x != 0
      {
        DivModUnique(k, x, count + 2, k - j);
      }
      DivModUnique(j, x, count + 2, 0);
      l[j] := false;
      j := j + x;
      count := count + 1;
    }
    DivModUnique(n, x, count + 1, n - (count + 1) * x);
  }

  predicate StrictlyIncreasing(s: seq<int>) {
    forall a, b :: 0 <= a < b < |s| ==> s[a] < s[b]
  }

  /** The comprehension `[i for i in range(lo, len(l)) if l[i]]`. */
  function Flagged(l: seq<bool>, lo: nat): (r: seq<int>)
    ensures forall i :: i in r <==> lo <= i < |l| && l[i]
    ensures StrictlyIncreasing(r)
    ensures forall k :: 0 <= k < |r| ==> lo <= r[k]
    decreases |l| - lo
  {
    if lo >= |l| then []
    else
      var rest := Flagged(l, lo + 1);
      if l[lo] then [lo] + rest else rest
  }

  /** `sieve(n0)`: the primes below n0 in increasing order; None where
      round((n0 - 1) ** .5) raises, since the power of a negative number
      is complex. */
  method Sieve(n0: int) returns (r: Option<seq<int>>)
    ensures r == None <==> n0 <= 0
    ensures r.Some? ==> forall i :: i in r.value <==> 2 <= i < n0 && IsPrime(i)
    ensures r.Some? ==> StrictlyIncreasing(r.value)
  {
    var n := n0 - 1;
    if n < 0 {
      return None;
    }
    var l := new bool[n + 1](_ => true);
    var top := RoundSqrt(n);
    var x := 2;
    while x <= top
      invariant 2 <= x && (x <= top + 1 || x == 2)
      invariant forall i :: 2 <= i <= n ==> (l[i] <==> NoSmallDivisor(i, x))
      decreases top + 1 - x
    {
      ghost var before := l[..];
      assert l[x] <==> NoSmallDivisor(x, x);
      if l[x] {
        var c := CrossOut(l, x, n);
      }
      forall i | 2 <= i <= n
        ensures l[i] <==> NoSmallDivisor(i, x + 1)
      {
        SieveRound(i, x);
        assert before[i] <==> NoSmallDivisor(i, x);
      }
      x := x + 1;
    }
    assert n < x * x by {
      var s := IntSqrt(n);
      assert s + 1 <= x;
      MulMono2(s + 1, x, s + 1, x);
    }
    forall i | 2 <= i <= n
      ensures l[i] <==> IsPrime(i)
    {
      SieveComplete(i, x, n);
    }
    r := Some(Flagged(l[..], 2));
  }
}

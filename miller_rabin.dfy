/** `isprimerm`, the deterministic Miller-Rabin test over a fixed list of
    witnesses. The loop is modelled as written; a second definition skips
    the witnesses that are multiples of n, and only that one accepts
    every prime. */
module MillerRabin {
  import opened NumberTheory
  import opened ModArith
  import opened Fermat

  /** The default witness list of the source. */
  const Witnesses: seq<int> := [2, 325, 9375, 28178, 450775, 9780504, 1795265022]

  /** Python's three-argument `pow(a, e, n)` for a positive modulus. */
  function PowMod(a: int, e: nat, n: int): (r: int)
    requires n > 0
    ensures 0 <= r < n
  {
    IntPow(a, e) % n
  }

  /** The inner loop `while b % 2 == 0 and r == 1: r = pow(a, b, n);
      b //= 2`, as the pair (r, b) it leaves. */
  function Halving(a: int, n: int, r: int, b: nat): (res: (int, nat))
    requires n > 0 && b > 0
    ensures res.1 > 0
    decreases b
  {
    if b % 2 == 0 && r == 1 then Halving(a, n, PowMod(a, b, n), b / 2) else (r, b)
  }

  /** The loop over the witnesses from index i on, with b carried over from
      the previous witness (0 before the first). */
  function WitnessLoop(n: int, w: seq<int>, i: nat, b: nat): bool
    requires n >= 3 && i <= |w|
    decreases |w| - i
  {
    if i == |w| then true
    else
      var a := w[i];
      if PowMod(a, n - 1, n) != 1 then false
      else if b == 0 || PowMod(a, b, n) != 1 then
        var t := Halving(a, n, 1, n - 1);
        if t.0 != 1 && t.0 != n - 1 then false
        else WitnessLoop(n, w, i + 1, t.1)
      else WitnessLoop(n, w, i + 1, b)
  }

  /** The value `isprimerm(n, w)` returns (n negative and odd is left out:
      there Python's pow takes a negative modulus). */
  function IsPrimeRMOf(n: int, w: seq<int>): bool
    requires n >= 0 || n % 2 == 0
  {
    if n == 1 then false
    else if n in w then true
    else if n % 2 == 0 then false
    else WitnessLoop(n, w, 0, 0)
  }

  /** `isprimerm` with its loops. */
  method IsPrimeRM(n: int, w: seq<int>) returns (res: bool)
    requires n >= 0 || n % 2 == 0
    ensures res == IsPrimeRMOf(n, w)
  {
    if n == 1 {
      return false;
    }
    if n in w {
      return true;
    }
    if n % 2 == 0 {
      return false;
    }
    var b: nat := 0;
    for i := 0 to |w|
      invariant WitnessLoop(n, w, i, b) == WitnessLoop(n, w, 0, 0)
    {
      var a := w[i];
      if PowMod(a, n - 1, n) != 1 {
        return false;
      }
      if b == 0 || PowMod(a, b, n) != 1 {
        var r := 1;
        b := n - 1;
        while b % 2 == 0 && r == 1
          invariant b > 0 && Halving(a, n, r, b) == Halving(a, n, 1, n - 1)
          decreases b
        {
          r := PowMod(a, b, n);
          b := b / 2;
        }
        if r != 1 && r != n - 1 {
          return false;
        }
      }
    }
    return true;
  }

  // ---------------------------------------------------------------------
  // What an accepted n satisfies

  lemma {:induction false} WitnessLoopFermat(n: int, w: seq<int>, i: nat, b: nat)
    requires n >= 3 && i <= |w| && WitnessLoop(n, w, i, b)
    ensures forall j :: i <= j < |w| ==> PowMod(w[j], n - 1, n) == 1
    decreases |w| - i
  {
    if i < |w| {
      var a := w[i];
      if b == 0 || PowMod(a, b, n) != 1 {
        WitnessLoopFermat(n, w, i + 1, Halving(a, n, 1, n - 1).1);
      } else {
        WitnessLoopFermat(n, w, i + 1, b);
      }
    }
  }

  /** An odd n outside the witness list that the test accepts passes
      Fermat's test a^(n-1) = 1 mod n for every witness a. */
  lemma AcceptedPassesFermat(n: int, w: seq<int>)
    requires n >= 0 && n % 2 == 1 && n !in w && IsPrimeRMOf(n, w)
    ensures forall a :: a in w ==> PowMod(a, n - 1, n) == 1
  {
    WitnessLoopFermat(n, w, 0, 0);
    forall a | a in w
      ensures PowMod(a, n - 1, n) == 1
    {
      var j :| 0 <= j < |w| && w[j] == a;
    }
  }

  /** The three early answers: 1 is rejected, a listed witness accepted,
      any other even number rejected. */
  lemma EarlyAnswers(n: int, w: seq<int>)
    requires n >= 0 || n % 2 == 0
    ensures n == 1 ==> !IsPrimeRMOf(n, w)
    ensures n != 1 && n in w ==> IsPrimeRMOf(n, w)
    ensures n !in w && n % 2 == 0 ==> !IsPrimeRMOf(n, w)
  {
  }

  // ---------------------------------------------------------------------
  // The witnesses that are multiples of n

  /** As written the test rejects the primes 3 and 5: 9375 is a multiple
      of 3 and 325 a multiple of 5, so pow(a, n - 1, n) is 0 there. */
  lemma SmallPrimesRejected()
    ensures IsPrime(3) && !IsPrimeRMOf(3, Witnesses)
    ensures IsPrime(5) && !IsPrimeRMOf(5, Witnesses)
  {
    assert PowMod(2, 2, 3) == 1 && PowMod(325, 2, 3) == 1 && PowMod(325, 1, 3) == 1;
    assert Halving(2, 3, 1, 2) == (1, 1);
    assert PowMod(9375, 2, 3) == 0;
    assert WitnessLoop(3, Witnesses, 2, 1) == false;
    assert WitnessLoop(3, Witnesses, 1, 1) == false;
    assert PowMod(2, 4, 5) == 1 && PowMod(2, 2, 5) == 4;
    assert Halving(2, 5, 1, 4) == (4, 1);
    assert PowMod(325, 4, 5) == 0;
    assert WitnessLoop(5, Witnesses, 1, 1) == false;
  }

  /** The loop as intended: a witness that is a multiple of n says nothing
      about n and is skipped. */
  function WitnessLoopSkipping(n: int, w: seq<int>, i: nat, b: nat): bool
    requires n >= 3 && i <= |w|
    decreases |w| - i
  {
    if i == |w| then true
    else
      var a := w[i];
      if a % n == 0 then WitnessLoopSkipping(n, w, i + 1, b)
      else if PowMod(a, n - 1, n) != 1 then false
      else if b == 0 || PowMod(a, b, n) != 1 then
        var t := Halving(a, n, 1, n - 1);
        if t.0 != 1 && t.0 != n - 1 then false
        else WitnessLoopSkipping(n, w, i + 1, t.1)
      else WitnessLoopSkipping(n, w, i + 1, b)
  }

  function IsPrimeRMSkipping(n: int, w: seq<int>): bool
    requires n >= 0 || n % 2 == 0
  {
    if n == 1 then false
    else if n in w then true
    else if n % 2 == 0 then false
    else WitnessLoopSkipping(n, w, 0, 0)
  }

  /** (a^b mod n)^2 = a^(2b) mod n. */
  lemma PowModSquare(a: int, b: nat, n: int)
    requires n > 0
    ensures (PowMod(a, b, n) * PowMod(a, b, n)) % n == PowMod(a, 2 * b, n)
  {
    IntPowAdd(a, b, b);
    ModMul(IntPow(a, b), IntPow(a, b), n);
  }

  /** Modulo a prime the halving loop stops at 1 or n - 1: each r it
      computes squares to the previous one, which was 1. */
  lemma {:induction false} HalvingPrime(a: int, n: int, r: int, b: nat)
    requires IsPrime(n) && b > 0 && (r == 1 || r == n - 1)
    requires r == 1 ==> PowMod(a, 2 * b, n) == 1
    ensures Halving(a, n, r, b).0 == 1 || Halving(a, n, r, b).0 == n - 1
    decreases b
  {
    if b % 2 == 0 && r == 1 {
      var r' := PowMod(a, b, n);
      PowModSquare(a, b, n);
      SqrtOfOne(n, r');
      assert 2 * (b / 2) == b;
      HalvingPrime(a, n, r', b / 2);
    }
  }

  lemma {:induction false} WitnessLoopPrime(n: int, w: seq<int>, i: nat, b: nat)
    requires IsPrime(n) && n >= 3 && i <= |w|
    ensures WitnessLoopSkipping(n, w, i, b)
    decreases |w| - i
  {
    if i < |w| {
      var a := w[i];
      if a % n == 0 {
        WitnessLoopPrime(n, w, i + 1, b);
      } else {
        FermatLittle(n, a);
        if b == 0 || PowMod(a, b, n) != 1 {
          PowModSquare(a, n - 1, n);
          ModSmall(1, n);
          HalvingPrime(a, n, 1, n - 1);
          WitnessLoopPrime(n, w, i + 1, Halving(a, n, 1, n - 1).1);
        } else {
          WitnessLoopPrime(n, w, i + 1, b);
        }
      }
    }
  }

  /** With the multiples of n skipped, the test accepts every odd prime
      and every prime in the list, so every prime for the default list. */
  lemma PrimesPassSkipping(n: int, w: seq<int>)
    requires IsPrime(n) && (n % 2 == 1 || n in w)
    ensures IsPrimeRMSkipping(n, w)
  {
    if n !in w {
      WitnessLoopPrime(n, w, 0, 0);
    }
  }
}

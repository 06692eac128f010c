/** Coefficient lists, lowest degree first, whatever the coefficient type:
    the trimmed form every `Polynomial` object stores (algnuth/polynom.py,
    `Polynomial.trim` and the constructor). */
module CoefficientLists {

  /** `Polynomial.trim(C)`: C without its trailing zero coefficients. */
  function Trim<T(==)>(C: seq<T>, zero: T): (r: seq<T>)
    ensures |r| <= |C| && r == C[..|r|]
    ensures r == [] || r[|r| - 1] != zero
    ensures forall i :: |r| <= i < |C| ==> C[i] == zero
    decreases |C|
  {
    if |C| == 0 then []
    else if C[|C| - 1] == zero then Trim(C[..|C| - 1], zero)
    else C
  }

  /** The while loop of `trim`: i walks down over the zero coefficients. */
  method TrimLoop<T(==)>(C: seq<T>, zero: T) returns (r: seq<T>)
    ensures r == Trim(C, zero)
  {
    var i := |C| - 1;
    while i >= 0 && C[i] == zero
      invariant -1 <= i < |C|
      invariant Trim(C[..i + 1], zero) == Trim(C, zero)
    {
      assert C[..i + 1][..i] == C[..i];
      i := i - 1;
    }
    r := C[..i + 1];
  }

  /** A list with no trailing zero is its own trimmed form, so building a
      polynomial from a polynomial's coefficients changes nothing. */
  lemma {:induction false} TrimTrimmed<T>(C: seq<T>, zero: T)
    requires C == [] || C[|C| - 1] != zero
    ensures Trim(C, zero) == C
  {
  }

  /** Trimming twice is trimming once. */
  lemma TrimIdempotent<T>(C: seq<T>, zero: T)
    ensures Trim(Trim(C, zero), zero) == Trim(C, zero)
  {
    TrimTrimmed(Trim(C, zero), zero);
  }
}

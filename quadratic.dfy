/** Binary quadratic forms a x^2 + b x y + c y^2 of negative
    discriminant: the reduced forms `Cl`, the primitive and ambiguous
    ones, the reduction loop `reduced`, and the residues `genus` of a form. */
module Quadratic {
  import opened NumberTheory
  import opened Wrappers

  /** The triple (a, b, c). */
  datatype Form = Form(a: int, b: int, c: int)

  function Disc(f: Form): int {
    f.b * f.b - 4 * f.a * f.c
  }

  /** Reduced in the sense `Cl` lists: |b| <= a <= c, a >= 1, and b >= 0
      when |b| = a or a = c. */
  predicate IsReducedForm(f: Form) {
    1 <= f.a && -f.a <= f.b <= f.a && f.a <= f.c && (f.b < 0 ==> -f.b != f.a && f.a != f.c)
  }

  /** The arguments `Cl` accepts. */
  predicate ClDomain(D: int) {
    D < 0 && (D % 4 == 0 || D % 4 == 1)
  }

  /** int(sqrt(-D / 3)), exactly: the largest a with 3 a^2 <= -D. */
  function ABound(D: int): (s: nat)
    requires D < 0
    ensures 3 * (s * s) <= -D < 3 * ((s + 1) * (s + 1))
  {
    var s := IntSqrt(-D / 3);
    assert -D == 3 * (-D / 3) + (-D) % 3;
    s
  }

  // ---------------------------------------------------------------------
  // Cl

  /** What the loop body of `Cl` appends for the pair (a, b). */
  function Candidate(D: int, a: int, b: int): seq<Form>
    requires a >= 1
  {
    if (b * b - D) % (4 * a) == 0 then
      var c := (b * b - D) / (4 * a);
      if c >= a && (b >= 0 || (Abs(b) != a && a != c)) then [Form(a, b, c)] else []
    else []
  }

  /** The order on Cl's list: by a, then by b. */
  predicate Before(f: Form, g: Form) {
    f.a < g.a || (f.a == g.a && f.b < g.b)
  }

  predicate SortedForms(s: seq<Form>) {
    forall i, j :: 0 <= i < j < |s| ==> Before(s[i], s[j])
  }

  /** The inner loop of `Cl` from b on. */
  function RowFrom(D: int, a: int, b: int): seq<Form>
    requires a >= 1 && -a <= b
    decreases a + 1 - b
  {
    if b > a then [] else Candidate(D, a, b) + RowFrom(D, a, b + 1)
  }

  /** The outer loop of `Cl` from a on. */
  function RowsFrom(D: int, a: int, A: int): seq<Form>
    requires a >= 1
    decreases A + 1 - a
  {
    if a > A then [] else RowFrom(D, a, -a) + RowsFrom(D, a + 1, A)
  }

  /** The row for a holds forms with that a, in increasing b from b on. */
  lemma {:induction false} RowSorted(D: int, a: int, b: int)
    requires a >= 1 && -a <= b
    ensures SortedForms(RowFrom(D, a, b))
    ensures forall k :: 0 <= k < |RowFrom(D, a, b)| ==> RowFrom(D, a, b)[k].a == a && RowFrom(D, a, b)[k].b >= b
    decreases a + 1 - b
  {
    if b <= a {
      RowSorted(D, a, b + 1);
      var head, rest := Candidate(D, a, b), RowFrom(D, a, b + 1);
      assert forall k :: 0 <= k < |head| ==> head[k] == Form(a, b, head[k].c);
      ConcatSorted(head, rest);
    }
  }

  /** The rows from a on hold forms with a at least a, in (a, b) order. */
  lemma {:induction false} RowsSorted(D: int, a: int, A: int)
    requires a >= 1
    ensures SortedForms(RowsFrom(D, a, A))
    ensures forall k :: 0 <= k < |RowsFrom(D, a, A)| ==> RowsFrom(D, a, A)[k].a >= a
    decreases A + 1 - a
  {
    if a <= A {
      RowSorted(D, a, -a);
      RowsSorted(D, a + 1, A);
      ConcatSorted(RowFrom(D, a, -a), RowsFrom(D, a + 1, A));
    }
  }

  /** Two sorted lists whose every pair is ordered concatenate sorted. */
  lemma ConcatSorted(s: seq<Form>, t: seq<Form>)
    requires SortedForms(s) && SortedForms(t)
    requires forall i, j :: 0 <= i < |s| && 0 <= j < |t| ==> Before(s[i], t[j])
    ensures SortedForms(s + t)
  {
    forall i, j | 0 <= i < j < |s + t|
      ensures Before((s + t)[i], (s + t)[j])
    {
      if j < |s| {
        assert (s + t)[i] == s[i] && (s + t)[j] == s[j];
      } else if i < |s| {
        assert (s + t)[i] == s[i] && (s + t)[j] == t[j - |s|];
      } else {
        assert (s + t)[i] == t[i - |s|] && (s + t)[j] == t[j - |s|];
      }
    }
  }

  /** The list `Cl(D)` builds. */
  function ClassesOf(D: int): seq<Form>
    requires D < 0
  {
    RowsFrom(D, 1, ABound(D))
  }

  /** `Cl`: None where one of its two assertions fails. */
  method Cl(D: int) returns (r: Option<seq<Form>>)
    ensures r == if ClDomain(D) then Some(ClassesOf(D)) else None
  {
    if !(D < 0) {
      return None;
    }
    if !(D % 4 == 0 || D % 4 == 1) {
      return None;
    }
    var l: seq<Form> := [];
    var A := ABound(D);
    for a := 1 to A + 1
      invariant l + RowsFrom(D, a, A) == ClassesOf(D)
    {
      var row := ClRow(D, a);
      assert RowsFrom(D, a, A) == row + RowsFrom(D, a + 1, A);
      l := l + row;
    }
    assert RowsFrom(D, A + 1, A) == [];
    assert l == ClassesOf(D);
    assert ClDomain(D);
    return Some(l);
  }

  /** The inner loop of `Cl` for one a: the forms it appends. */
  method ClRow(D: int, a: int) returns (row: seq<Form>)
    requires a >= 1
    ensures row == RowFrom(D, a, -a)
  {
    row := [];
    for b := -a to a + 1
      invariant row + RowFrom(D, a, b) == RowFrom(D, a, -a)
    {
      ghost var next := RowFrom(D, a, b + 1);
      assert RowFrom(D, a, b) == Candidate(D, a, b) + next;
      var cand := ClPair(D, a, b);
      assert row + cand + next == row + (cand + next);
      row := row + cand;
    }
    assert RowFrom(D, a, a + 1) == [];
  }

  /** The body of the inner loop of `Cl`: the form it appends for (a, b),
      if any. */
  method ClPair(D: int, a: int, b: int) returns (cand: seq<Form>)
    requires a >= 1
    ensures cand == Candidate(D, a, b)
  {
    cand := [];
    if (b * b - D) % (4 * a) == 0 {
      var c := (b * b - D) / (4 * a);
      if c >= a {
        if b >= 0 || (Abs(b) != a && a != c) {
          cand := [Form(a, b, c)];
        }
      }
    }
  }

  /** The pair (a, b) yields the reduced form with these a and b, if any. */
  lemma CandidateExact(D: int, a: int, b: int, f: Form)
    requires 1 <= a && -a <= b <= a
    ensures f in Candidate(D, a, b) <==>
            f.a == a && f.b == b && IsReducedForm(f) && Disc(f) == D
  {
    var N, m := b * b - D, 4 * a;
    if f.a == a && f.b == b && Disc(f) == D {
      assert N == f.c * m;
      DivModUnique(N, m, f.c, 0);
    }
    if f in Candidate(D, a, b) {
      assert N == (N / m) * m;
      assert 4 * a * f.c == f.c * m;
    }
  }

  lemma {:induction false} RowExact(D: int, a: int, b: int, f: Form)
    requires 1 <= a && -a <= b
    ensures f in RowFrom(D, a, b) <==>
            f.a == a && b <= f.b && IsReducedForm(f) && Disc(f) == D
    decreases a + 1 - b
  {
    if b <= a {
      var head, rest := Candidate(D, a, b), RowFrom(D, a, b + 1);
      assert RowFrom(D, a, b) == head + rest;
      CandidateExact(D, a, b, f);
      RowExact(D, a, b + 1, f);
      assert f in RowFrom(D, a, b) <==> f in head || f in rest;
    } else {
      assert RowFrom(D, a, b) == [];
    }
  }

  lemma {:induction false} RowsExact(D: int, a: int, A: int, f: Form)
    requires 1 <= a
    ensures f in RowsFrom(D, a, A) <==>
            a <= f.a <= A && IsReducedForm(f) && Disc(f) == D
    decreases A + 1 - a
  {
    if a <= A {
      RowExact(D, a, -a, f);
      RowsExact(D, a + 1, A, f);
    }
  }

  /** A reduced form of discriminant D < 0 has 3 a^2 <= -D. */
  lemma ReducedBound(f: Form)
    requires IsReducedForm(f) && Disc(f) < 0
    ensures 3 * (f.a * f.a) <= -Disc(f)
  {
    var a, b, c := f.a, f.b, f.c;
    assert b * b <= a * a by {
      if b >= 0 { MulLe(b, a); } else { MulLe(-b, a); assert b * b == (-b) * (-b); }
    }
    assert a * a <= a * c by {
      MulLeft(a, a, c);
    }
    assert 4 * a * c == 4 * (a * c);
  }

  lemma MulLe(x: int, y: int)
    requires 0 <= x <= y
    ensures x * x <= y * y
  {
    MulLeft(x, x, y);
    MulLeft(y, x, y);
  }

  lemma MulLeft(k: int, x: int, y: int)
    requires k >= 0 && x <= y
    ensures k * x <= k * y
  {
  }

  /** `Cl(D)` lists every reduced form of discriminant D, and nothing else,
      in increasing (a, b) order (so each once), with a at most
      int(sqrt(-D / 3)). */
  lemma ClassesExact(D: int, f: Form)
    requires D < 0
    ensures f in ClassesOf(D) <==> IsReducedForm(f) && Disc(f) == D
    ensures f in ClassesOf(D) ==> f.a <= ABound(D)
    ensures SortedForms(ClassesOf(D))
  {
    RowsExact(D, 1, ABound(D), f);
    RowsSorted(D, 1, ABound(D));
    if IsReducedForm(f) && Disc(f) == D {
      ReducedBound(f);
      var s := ABound(D);
      if f.a > s {
        MulLe(s + 1, f.a);
        assert false;
      }
    }
  }

  // ---------------------------------------------------------------------
  // Prim, h, is_ambiguous, ambiguous_classes, a

  /** gcd(a, b, c), Python's reduce of math.gcd over the triple. */
  function Content(f: Form): nat {
    Gcd(Gcd(Abs(f.a), Abs(f.b)), Abs(f.c))
  }

  /** The comprehension keeping the forms of content 1, in order. */
  function Primitives(s: seq<Form>): (r: seq<Form>)
    ensures forall f :: f in r <==> f in s && Content(f) == 1
    ensures SortedForms(s) ==> SortedForms(r)
    ensures |r| <= |s|
  {
    if s == [] then []
    else
      var rest := Primitives(s[1..]);
      HeadBefore(s);
      if Content(s[0]) == 1 then [s[0]] + rest else rest
  }

  /** In a sorted list the head comes before every later element. */
  lemma HeadBefore(s: seq<Form>)
    requires s != []
    ensures forall f :: f in s[1..] ==> f in s
    ensures SortedForms(s) ==> SortedForms(s[1..]) && forall f :: f in s[1..] ==> Before(s[0], f)
  {
    if SortedForms(s) {
      forall f | f in s[1..]
        ensures Before(s[0], f)
      {
        var i :| 0 <= i < |s[1..]| && s[1..][i] == f;
        assert s[i + 1] == f;
      }
    }
  }

  /** `Prim(D)`. */
  function PrimOf(D: int): Option<seq<Form>> {
    if ClDomain(D) then Some(Primitives(ClassesOf(D))) else None
  }

  /** `h(D)`, the class number. */
  function ClassNumber(D: int): Option<nat> {
    if ClDomain(D) then Some(|Primitives(ClassesOf(D))|) else None
  }

  /** `Prim(D)` keeps, in order, exactly the reduced forms of discriminant
      D with gcd(a, b, c) = 1, and `h(D)` counts them. */
  lemma PrimExact(D: int, f: Form)
    requires ClDomain(D)
    ensures f in PrimOf(D).value <==> IsReducedForm(f) && Disc(f) == D && Content(f) == 1
    ensures SortedForms(PrimOf(D).value)
    ensures ClassNumber(D).value == |set g | g in PrimOf(D).value|
  {
    ClassesExact(D, f);
    SortedDistinct(PrimOf(D).value);
  }

  /** A sorted list has no repeated element. */
  lemma {:induction false} SortedDistinct(s: seq<Form>)
    requires SortedForms(s)
    ensures |set g | g in s| == |s|
  {
    if s != [] {
      SortedDistinct(s[1..]);
      var t := set g | g in s[1..];
      assert (set g | g in s) == {s[0]} + t;
      assert s[0] !in t;
    }
  }

  /** The principal form (1, 0, -D/4) or (1, 1, (1 - D)/4) is primitive
      and reduced, so h(D) >= 1. */
  lemma PrincipalForm(D: int)
    requires ClDomain(D)
    ensures var p := if D % 4 == 0 then Form(1, 0, -D / 4) else Form(1, 1, (1 - D) / 4);
              p in PrimOf(D).value
    ensures ClassNumber(D).value >= 1
  {
    var p := if D % 4 == 0 then Form(1, 0, -D / 4) else Form(1, 1, (1 - D) / 4);
    assert Disc(p) == D && p.c >= 1 by {
      if D % 4 == 0 {
        assert D == 4 * (D / 4);
      } else {
        assert D - 1 == 4 * ((D - 1) / 4);
        assert (1 - D) / 4 == -((D - 1) / 4);
      }
    }
    assert IsReducedForm(p);
    GcdOneLeft(Abs(p.b));
    GcdOneLeft(Abs(p.c));
    assert Content(p) == 1;
    PrimExact(D, p);
  }

  lemma GcdOneLeft(x: nat)
    ensures Gcd(1, x) == 1
  {
    if x > 1 {
      ModSmall(1, x);
      assert Gcd(1, x) == Gcd(x, 1);
    }
  }

  predicate IsAmbiguous(f: Form) {
    f.b == 0 || f.b == f.a || f.c == f.a
  }

  /** The comprehension keeping the ambiguous forms, in order. */
  function Ambiguous(s: seq<Form>): (r: seq<Form>)
    ensures forall f :: f in r <==> f in s && IsAmbiguous(f)
    ensures SortedForms(s) ==> SortedForms(r)
    ensures |r| <= |s|
  {
    if s == [] then []
    else
      var rest := Ambiguous(s[1..]);
      HeadBefore(s);
      if IsAmbiguous(s[0]) then [s[0]] + rest else rest
  }

  /** `ambiguous_classes(D)`. */
  function AmbiguousClassesOf(D: int): Option<seq<Form>> {
    if ClDomain(D) then Some(Ambiguous(ClassesOf(D))) else None
  }

  /** `a(D)`, the number of ambiguous classes. */
  function AmbiguousCount(D: int): Option<nat> {
    if ClDomain(D) then Some(|Ambiguous(ClassesOf(D))|) else None
  }

  /** `ambiguous_classes(D)` keeps, in order, exactly the reduced forms of
      discriminant D with b = 0, b = a or c = a, and `a(D)` counts them. */
  lemma AmbiguousExact(D: int, f: Form)
    requires ClDomain(D)
    ensures f in AmbiguousClassesOf(D).value <==> IsReducedForm(f) && Disc(f) == D && IsAmbiguous(f)
    ensures SortedForms(AmbiguousClassesOf(D).value)
    ensures AmbiguousCount(D).value == |set g | g in AmbiguousClassesOf(D).value|
    ensures AmbiguousCount(D).value <= |ClassesOf(D)|
  {
    ClassesExact(D, f);
    SortedDistinct(AmbiguousClassesOf(D).value);
  }

  // ---------------------------------------------------------------------
  // reduced

  /** `reduced(a, b, c)`. The loop is proved to end for a negative
      discriminant; there a != 0 throughout. */
  method Reduced(f0: Form) returns (f: Form)
    requires Disc(f0) < 0
    ensures Disc(f) == Disc(f0)
    ensures -(Abs(f.a) as int) < f.b <= Abs(f.a) <= Abs(f.c)
    ensures (f.a > 0) == (f0.a > 0)
  {
    f := f0;
    DefiniteSigns(f);
    while !(-(Abs(f.a) as int) < f.b <= Abs(f.a) <= Abs(f.c))
      invariant Disc(f) == Disc(f0) && f.a != 0 && (f.a > 0) == (f0.a > 0)
      decreases Abs(f.a), Abs(f.b), if -(Abs(f.a) as int) < f.b <= Abs(f.a) then 0 else 1
    {
      if Abs(f.c) < Abs(f.a) {
        DefiniteSigns(f);
        SwapDisc(f);
        f := Form(f.c, -f.b, f.a);
      } else if Abs(f.c) >= Abs(f.a) && Abs(f.b) >= Abs(f.a) {
        var sign := if Abs(f.b + f.a) < Abs(f.b) then 1 else -1;
        var g := Form(f.a, f.b + sign * 2 * f.a, f.c + f.a + sign * f.b);
        StepDisc(f.a, f.b, f.c, sign);
        StepShrinks(f.a, f.b, sign);
        f := g;
        DefiniteSigns(f);
      } else {
        assert false;
      }
    }
  }

  /** b^2 - 4ac < 0 forces a and c non-zero and of the same sign. */
  lemma DefiniteSigns(f: Form)
    requires Disc(f) < 0
    ensures f.a != 0 && f.c != 0 && (f.a > 0 <==> f.c > 0)
  {
    assert f.b * f.b >= 0;
    if f.a > 0 && f.c < 0 {
      MulLeft(f.a, f.c, 0);
    } else if f.a < 0 && f.c > 0 {
      MulLeft(f.c, f.a, 0);
    }
  }

  /** The swap (c, -b, a) keeps the discriminant. */
  lemma SwapDisc(f: Form)
    ensures Disc(Form(f.c, -f.b, f.a)) == Disc(f)
  {
    assert f.c * f.a == f.a * f.c;
  }

  /** The update (b + 2sa, c + a + sb) keeps the discriminant. */
  lemma StepDisc(a: int, b: int, c: int, sign: int)
    requires sign == 1 || sign == -1
    ensures Disc(Form(a, b + sign * 2 * a, c + a + sign * b)) == Disc(Form(a, b, c))
  {
    var b', c' := b + sign * 2 * a, c + a + sign * b;
    assert sign * sign == 1;
    assert b' * b' == b * b + 4 * sign * a * b + 4 * a * a;
    assert 4 * a * c' == 4 * a * c + 4 * a * a + 4 * sign * a * b;
  }

  /** With b outside (-|a|, |a|] the update shortens b, unless b = -|a|,
      which it turns into |a|. */
  lemma StepShrinks(a: int, b: int, sign: int)
    requires a != 0 && (b <= -(Abs(a) as int) || b > Abs(a))
    requires sign == if Abs(b + a) < Abs(b) then 1 else -1
    ensures Abs(b + sign * 2 * a) < Abs(b) || (Abs(b) == Abs(a) && b + sign * 2 * a == Abs(a))
  {
  }

  // ---------------------------------------------------------------------
  // func, genus, genera

  /** `func(a, b, c)(x, y)`. */
  function Value(f: Form, x: int, y: int): int {
    f.a * x * x + f.b * x * y + f.c * y * y
  }

  /** Completing the square: 4a f(x, y) = (2ax + by)^2 - D y^2. */
  lemma CompleteSquare(f: Form, x: int, y: int)
    ensures 4 * f.a * Value(f, x, y) == (2 * f.a * x + f.b * y) * (2 * f.a * x + f.b * y) - Disc(f) * (y * y)
  {
    SquareIdentity(f.a, f.b, f.c, x, y);
  }

  lemma SquareIdentity(a: int, b: int, c: int, x: int, y: int)
    ensures 4 * a * (a * x * x + b * x * y + c * y * y)
         == (2 * a * x + b * y) * (2 * a * x + b * y) - (b * b - 4 * a * c) * (y * y)
  {
    var u, v := a * x, b * y;
    assert (2 * u + v) * (2 * u + v) == 4 * (u * u) + 4 * (u * v) + v * v;
    assert a * x * x * a == u * u;
    assert 4 * a * (a * x * x) == 4 * (u * u);
    assert 4 * a * (b * x * y) == 4 * (u * v);
    assert b * y * (b * y) == b * b * (y * y);
    assert 4 * a * (c * y * y) == 4 * a * c * (y * y);
  }

  /** A form with a > 0 and negative discriminant takes no negative value. */
  lemma PositiveDefinite(f: Form, x: int, y: int)
    requires f.a > 0 && Disc(f) < 0
    ensures Value(f, x, y) >= 0
  {
    CompleteSquare(f, x, y);
    var s := 2 * f.a * x + f.b * y;
    assert s * s >= 0;
    assert y * y >= 0;
    assert -Disc(f) * (y * y) >= 0 by {
      MulLeft(y * y, 0, -Disc(f));
    }
    if Value(f, x, y) < 0 {
      MulLeft(f.a, Value(f, x, y), -1);
      assert false;
    }
  }

  /** The set of residues f(x, y) mod D' over 0 <= x, y < D' with
      gcd(f(x, y), D') = 1, where D' = 4ac - b^2. */
  function GenusSet(f: Form): set<int> {
    var Dp := -Disc(f);
    set x: int, y: int | 0 <= x < Dp && 0 <= y < Dp && Gcd(Abs(Value(f, x, y)), Dp) == 1
      :: Value(f, x, y) % Dp
  }

  /** The members of S among lo, lo + 1, ..., hi - 1, in that order. */
  function Ascending(S: set<int>, lo: int, hi: int): (r: seq<int>)
    ensures forall k :: k in r <==> lo <= k < hi && k in S
    ensures forall i, j :: 0 <= i < j < |r| ==> r[i] < r[j]
    ensures forall i :: 0 <= i < |r| ==> lo <= r[i]
    decreases hi - lo
  {
    if lo >= hi then []
    else if lo in S then [lo] + Ascending(S, lo + 1, hi)
    else Ascending(S, lo + 1, hi)
  }

  /** `genus(a, b, c)`: the sorted tuple of that set (every residue lies
      in [0, D'), so listing 0 .. D' - 1 in order is its sorted order). */
  function Genus(f: Form): seq<int> {
    Ascending(GenusSet(f), 0, -Disc(f))
  }

  /** gcd(v, m) = 1 carries over to the residue v mod m. */
  lemma CoprimeResidue(v: int, m: int)
    requires m > 0 && Gcd(Abs(v), m) == 1
    ensures Gcd(v % m, m) == 1
  {
    GcdOneCoprime(Abs(v), m);
    forall d | d >= 2 && Divides(d, v % m)
      ensures !Divides(d, m)
    {
      if Divides(d, m) {
        assert v == (v / m) * m + v % m;
        DividesLinear(m, v % m, v / m, d);
        assert v % d == 0;
        if v < 0 {
          DividesLinear(v, 0, -1, d);
        }
        assert false;
      }
    }
    GcdOneCoprime(v % m, m);
  }

  /** `genus(a, b, c)` is strictly ascending, and r is in it exactly when
      r = f(x, y) mod D' for some 0 <= x, y < D' with gcd(f(x, y), D') = 1;
      each such r lies in [0, D') and is coprime to D'. */
  lemma GenusExact(f: Form, r: int)
    ensures forall i, j :: 0 <= i < j < |Genus(f)| ==> Genus(f)[i] < Genus(f)[j]
    ensures r in Genus(f) <==>
            exists x, y :: 0 <= x < -Disc(f) && 0 <= y < -Disc(f) &&
              Gcd(Abs(Value(f, x, y)), -Disc(f)) == 1 && Value(f, x, y) % -Disc(f) == r
    ensures r in Genus(f) ==> 0 <= r < -Disc(f) && Gcd(r, -Disc(f)) == 1
  {
    var Dp := -Disc(f);
    if r in Genus(f) {
      var x, y :| 0 <= x < Dp && 0 <= y < Dp && Gcd(Abs(Value(f, x, y)), Dp) == 1
        && Value(f, x, y) % Dp == r;
      CoprimeResidue(Value(f, x, y), Dp);
    }
  }

  /** `genera(D)`: the genera of the primitive forms, collected in a loop. */
  method Genera(D: int) returns (r: Option<set<seq<int>>>)
    ensures r == if ClDomain(D) then Some(set t | t in PrimOf(D).value :: Genus(t)) else None
  {
    var p := PrimOf(D);
    if p == None {
      return None;
    }
    var l := p.value;
    var s: set<seq<int>> := {};
    for i := 0 to |l|
      invariant s == set t | t in l[..i] :: Genus(t)
    {
      assert l[..i + 1] == l[..i] + [l[i]];
      s := s + {Genus(l[i])};
    }
    assert l[..|l|] == l;
    return Some(s);
  }
}

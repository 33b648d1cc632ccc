/** Real polynomials in numpy's convention (coefficients listed from the
    highest degree down to the constant), complex values as numpy returns
    them, the contract of the foreign root finder `np.roots`, and the two
    array filters the solver applies to its result. */
module Polynomials {

  datatype Complex = Complex(re: real, im: real)

  function Pow4(x: real): real
  {
    x * x * x * x
  }

  /** Horner evaluation (numpy's `polyval`): `p[0]` is the leading coefficient. */
  function Eval(p: seq<real>, x: real): real
    decreases |p|
  {
    if p == [] then 0.0 else Eval(p[..|p| - 1], x) * x + p[|p| - 1]
  }

  /** A five-entry coefficient list is the quartic it stands for. */
  lemma EvalFive(p: seq<real>, x: real)
    requires |p| == 5
    ensures Eval(p, x) == p[0] * Pow4(x) + p[1] * (x * x * x) + p[2] * (x * x) + p[3] * x + p[4]
  {
    assert p[..1][..0] == [];
    assert Eval(p[..1], x) == p[0];
    assert p[..2][..1] == p[..1];
    assert Eval(p[..2], x) == p[0] * x + p[1];
    assert p[..3][..2] == p[..2];
    assert Eval(p[..3], x) == (p[0] * x + p[1]) * x + p[2];
    assert p[..4][..3] == p[..3];
    assert Eval(p[..4], x) == ((p[0] * x + p[1]) * x + p[2]) * x + p[3];
    assert p[..5][..4] == p[..4];
    assert p[..5] == p;
    assert Eval(p, x) == (((p[0] * x + p[1]) * x + p[2]) * x + p[3]) * x + p[4];
  }

  lemma EvalFiveEverywhere(p: seq<real>)
    requires |p| == 5
    ensures forall x :: Eval(p, x) == p[0] * Pow4(x) + p[1] * (x * x * x) + p[2] * (x * x) + p[3] * x + p[4]
  {
    forall x {
      EvalFive(p, x);
    }
  }

  lemma Pow4Increasing(x: real, y: real)
    requires 0.0 <= x < y
    ensures Pow4(x) < Pow4(y)
  {
    ProductIncreasing(x, y, x, y);
    ProductIncreasing(x * x, y * y, x * x, y * y);
  }

  /** With c4, c1 <= 0, not both zero, c4*x^4 + c1*x + c0 falls strictly on
      x > 0; `ex` and `ey` are its values at `x` and `y`. */
  lemma QuarticDecreasing(c4: real, c1: real, c0: real, x: real, y: real, ex: real, ey: real)
    requires ex == c4 * Pow4(x) + c1 * x + c0 && ey == c4 * Pow4(y) + c1 * y + c0
    requires c4 <= 0.0 && c1 <= 0.0 && (c4 < 0.0 || c1 < 0.0) && 0.0 < x < y
    ensures ey < ex
  {
    Pow4Increasing(x, y);
    ScaleDown(c4, Pow4(x), Pow4(y));
    ScaleDown(c1, x, y);
  }

  /** Multiplying by a non-positive factor reverses an order, strictly for a negative one. */
  lemma ScaleDown(c: real, u: real, v: real)
    requires c <= 0.0 && u < v
    ensures c * v <= c * u && (c < 0.0 ==> c * v < c * u)
  {
    SignOfProduct(c, v - u);
    assert c * v - c * u == c * (v - u);
  }

  lemma SignOfProduct(c: real, d: real)
    requires c <= 0.0 && d > 0.0
    ensures c * d <= 0.0 && (c < 0.0 ==> c * d < 0.0)
  {
  }

  lemma ProductIncreasing(a: real, b: real, c: real, d: real)
    requires 0.0 <= a < b && 0.0 <= c < d
    ensures a * c < b * d
  {
    assert a * c <= b * c;
    assert b * c < b * d;
  }

  /** Some coefficient is nonzero: the polynomial is not identically zero. */
  predicate NonZero(p: seq<real>)
  {
    exists k :: 0 <= k < |p| && p[k] != 0.0
  }

  /** Every real value the root finder reports is a root of `p`, and the
      zero polynomial (all leading zeros stripped away) has no roots reported. */
  ghost predicate RootsSound(p: seq<real>, roots: seq<Complex>)
  {
    (!NonZero(p) ==> roots == []) &&
    forall k :: 0 <= k < |roots| && roots[k].im == 0.0 ==> Eval(p, roots[k].re) == 0.0
  }

  /** A positive real value is reported at most once. */
  ghost predicate PositiveReportedOnce(roots: seq<Complex>)
  {
    forall z :: IsPositiveReal(z) ==> multiset(roots)[z] <= 1
  }

  /** Every real root of a polynomial that is not identically zero is reported. */
  ghost predicate RootsComplete(p: seq<real>, roots: seq<Complex>)
  {
    NonZero(p) ==> forall x :: Eval(p, x) == 0.0 ==> Complex(x, 0.0) in roots
  }

  lemma LinearRoot(a: real, b: real, x: real)
    requires a != 0.0 && a * x + b == 0.0
    ensures x == -b / a
  {
    assert x == (a * x) / a;
  }

  /** The real roots of `[0, 0, 0, a, b]`. */
  lemma DegreeOneZeros(p: seq<real>)
    requires |p| == 5
    ensures p[0] == 0.0 && p[1] == 0.0 && p[2] == 0.0 ==>
              forall x :: Eval(p, x) == 0.0 <==>
              (p[3] != 0.0 && x == -p[4] / p[3]) || (p[3] == 0.0 && p[4] == 0.0)
  {
    forall x | p[0] == 0.0 && p[1] == 0.0 && p[2] == 0.0
      ensures Eval(p, x) == 0.0 <==>
                (p[3] != 0.0 && x == -p[4] / p[3]) || (p[3] == 0.0 && p[4] == 0.0)
    {
      EvalFive(p, x);
      if p[3] != 0.0 && Eval(p, x) == 0.0 {
        LinearRoot(p[3], p[4], x);
      }
    }
  }

  /** `np.roots` on `[0, 0, 0, a, b]`: numpy strips the leading zeros, so a
      nonzero `a` leaves the one root `-b / a` and `a == 0` leaves a constant,
      which has no roots. */
  function DegreeOneRoots(p: seq<real>): (roots: seq<Complex>)
    ensures |p| == 5 && p[0] == 0.0 && p[1] == 0.0 && p[2] == 0.0 ==>
              RootsSound(p, roots) && RootsComplete(p, roots)
  {
    if |p| != 5 then []
    else
      DegreeOneZeros(p);
      if p[3] != 0.0 then [Complex(-p[4] / p[3], 0.0)] else []
  }

  /** Keeps, in order, the elements `keep` accepts (boolean-mask indexing). */
  function Filter(s: seq<Complex>, keep: Complex -> bool): (r: seq<Complex>)
    ensures |r| <= |s|
    ensures forall z :: z in r <==> z in s && keep(z)
    decreases |s|
  {
    if s == [] then []
    else
      assert s == s[..|s| - 1] + [s[|s| - 1]];
      Filter(s[..|s| - 1], keep) + (if keep(s[|s| - 1]) then [s[|s| - 1]] else [])
  }

  /** Boolean-mask indexing keeps every accepted element as often as it occurs. */
  lemma {:induction false} FilterCounts(s: seq<Complex>, keep: Complex -> bool)
    ensures forall z :: multiset(Filter(s, keep))[z] == if keep(z) then multiset(s)[z] else 0
    decreases |s|
  {
    if s != [] {
      var init, last := s[..|s| - 1], s[|s| - 1];
      assert s == init + [last];
      var tail := if keep(last) then [last] else [];
      FilterCounts(init, keep);
      assert multiset(s) == multiset(init) + multiset{last};
      assert multiset(Filter(s, keep)) == multiset(Filter(init, keep)) + multiset(tail);
    }
  }

  /** numpy compares complex numbers lexicographically: `z > 0` holds when the
      real part is positive, or zero with a positive imaginary part. */
  predicate AboveZero(z: Complex)
  {
    z.re > 0.0 || (z.re == 0.0 && z.im > 0.0)
  }

  /** `np.isreal`, taken exactly: the imaginary part is zero. */
  predicate IsReal(z: Complex)
  {
    z.im == 0.0
  }

  predicate IsPositiveReal(z: Complex)
  {
    z.im == 0.0 && z.re > 0.0
  }

  lemma {:induction false} FilterAppend(a: seq<Complex>, b: seq<Complex>, keep: Complex -> bool)
    ensures Filter(a + b, keep) == Filter(a, keep) + Filter(b, keep)
    decreases |b|
  {
    if b == [] {
      assert a + b == a;
    } else {
      var b', z := b[..|b| - 1], b[|b| - 1];
      assert (a + b)[..|a + b| - 1] == a + b';
      assert (a + b)[|a + b| - 1] == z;
      FilterAppend(a, b', keep);
    }
  }

  /** Filtering by `z > 0` and then by `np.isreal` keeps exactly the positive
      real values, in order. */
  lemma {:induction false} FilterTwice(s: seq<Complex>)
    ensures Filter(Filter(s, AboveZero), IsReal) == Filter(s, IsPositiveReal)
    decreases |s|
  {
    if s != [] {
      var s', z := s[..|s| - 1], s[|s| - 1];
      FilterTwice(s');
      var tail := if AboveZero(z) then [z] else [];
      FilterAppend(Filter(s', AboveZero), tail, IsReal);
      if AboveZero(z) {
        assert [z][..0] == [];
      }
    }
  }
}

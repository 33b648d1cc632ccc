/** What the solver's result means: the accumulators are sums over the
    boundaries, the quartic is the net heat flow, it falls strictly on the
    positive temperatures for a physical boundary list (so there is at most
    one equilibrium), a returned temperature is that equilibrium, the
    all-conductive case has a closed form, and the order of the boundaries
    does not matter. */
module EquilibriumProperties {
  import opened Polynomials
  import opened SingleBodyThermalEquil

  // ---------------------------------------------------------------------------
  // Sums

  lemma {:induction false} SumAppend(a: seq<Boundary>, b: seq<Boundary>, term: Boundary -> real)
    ensures Sum(a + b, term) == Sum(a, term) + Sum(b, term)
    decreases |a|
  {
    if a == [] {
      assert a + b == b;
    } else {
      assert (a + b)[0] == a[0] && (a + b)[1..] == a[1..] + b;
      SumAppend(a[1..], b, term);
    }
  }

  /** A sum does not depend on the order of the boundaries. */
  lemma {:induction false} SumPermutation(s: seq<Boundary>, t: seq<Boundary>, term: Boundary -> real)
    requires multiset(s) == multiset(t)
    ensures Sum(s, term) == Sum(t, term)
    decreases |s|
  {
    if s == [] {
      assert |t| == |multiset(t)| == 0;
    } else {
      assert s[0] in multiset(t);
      var j :| 0 <= j < |t| && t[j] == s[0];
      RemovedMultiset(s, t, j);
      SumPermutation(s[1..], t[..j] + t[j + 1..], term);
      SumRemoved(t, j, term);
    }
  }

  lemma RemovedMultiset(s: seq<Boundary>, t: seq<Boundary>, j: nat)
    requires multiset(s) == multiset(t) && s != [] && j < |t| && t[j] == s[0]
    ensures multiset(s[1..]) == multiset(t[..j] + t[j + 1..])
  {
    assert t == t[..j] + [t[j]] + t[j + 1..];
    assert s == [s[0]] + s[1..];
    assert multiset(t) == multiset(t[..j]) + multiset{t[j]} + multiset(t[j + 1..]);
    assert multiset(s) == multiset{s[0]} + multiset(s[1..]);
    assert multiset(t[..j] + t[j + 1..]) == multiset(t) - multiset{t[j]};
    assert multiset(s[1..]) == multiset(s) - multiset{s[0]};
  }

  /** Taking one summand out of a sum. */
  lemma SumRemoved(t: seq<Boundary>, j: nat, term: Boundary -> real)
    requires j < |t|
    ensures Sum(t, term) == term(t[j]) + Sum(t[..j] + t[j + 1..], term)
  {
    assert t == t[..j] + [t[j]] + t[j + 1..];
    SumAppend(t[..j] + [t[j]], t[j + 1..], term);
    SumAppend(t[..j], [t[j]], term);
    SumAppend(t[..j], t[j + 1..], term);
    assert [t[j]][1..] == [];
  }

  /** Termwise proportional summands give proportional sums. */
  lemma {:induction false} SumScaled(bs: seq<Boundary>, f: Boundary -> real, g: Boundary -> real, k: real)
    requires forall i :: 0 <= i < |bs| ==> f(bs[i]) == k * g(bs[i])
    ensures Sum(bs, f) == k * Sum(bs, g)
    decreases |bs|
  {
    if bs != [] {
      SumScaled(bs[1..], f, g, k);
    }
  }

  // ---------------------------------------------------------------------------
  // The accumulators after the loop

  /** Lines 36-45: after the loop, `coef4` is the sum of -σ·eA over the
      radiative boundaries, `coef1` the sum of -1/res over the conductive ones,
      and `coef0` the sum of σ·eA·T⁴ and T/res. */
  lemma {:induction false} AssembleSums(bs: seq<Boundary>)
    requires AllRecognized(bs)
    ensures Assemble(bs) == Ok(Coefficients(Sum(bs, Coef0Term), Sum(bs, Coef1Term), Sum(bs, Coef4Term)))
    decreases |bs|
  {
    if bs != [] {
      var init, b := bs[..|bs| - 1], bs[|bs| - 1];
      assert bs == init + [b];
      assert AllRecognized(init) by {
        forall i | 0 <= i < |init| ensures Recognized(init[i]) {
          assert init[i] == bs[i];
        }
      }
      AssembleSums(init);
      SumAppend(init, [b], Coef0Term);
      SumAppend(init, [b], Coef1Term);
      SumAppend(init, [b], Coef4Term);
      assert [b][1..] == [];
      var c := Accumulate(Coefficients(Sum(init, Coef0Term), Sum(init, Coef1Term), Sum(init, Coef4Term)), b);
      assert c.value.coef0 == Sum(bs, Coef0Term);
      assert c.value.coef1 == Sum(bs, Coef1Term);
      assert c.value.coef4 == Sum(bs, Coef4Term);
    }
  }

  /** Lines 39-47: a list the loop cannot finish fails with the error of its
      first bad element, and a list holding an element of neither kind never
      yields a temperature. */
  lemma UnrecognizedRejected(bs: seq<Boundary>, i: nat, polyRoots: seq<real> -> seq<Complex>)
    requires i < |bs| && bs[i].Other?
    ensures Equilibrium(bs, polyRoots).Err?
    ensures Equilibrium(bs, polyRoots).error in {UnrecognizedBoundary, ZeroResistance}
    ensures AllRecognized(bs[..i]) ==> Equilibrium(bs, polyRoots) == Err(UnrecognizedBoundary)
  {
    assert !Recognized(bs[i]);
    if AllRecognized(bs[..i]) {
      AssembleFirstFailure(bs, i);
    }
  }

  /** Test at test_equilibrium_temperature.py:49-52: two values of neither kind
      raise `ValueError`. */
  lemma BogusInputRejected(polyRoots: seq<real> -> seq<Complex>)
    ensures Equilibrium([Other, Other], polyRoots) == Err(UnrecognizedBoundary)
  {
    assert [Other, Other][..0] == [];
    UnrecognizedRejected([Other, Other], 0, polyRoots);
  }

  // ---------------------------------------------------------------------------
  // The quartic is the net heat flow

  lemma FluxTerms(b: Boundary, x: real)
    ensures Flux(b, x) == Coef4Term(b) * Pow4(x) + Coef1Term(b) * x + Coef0Term(b)
  {
    if b.Conductive? && b.res != 0.0 {
      assert (b.T - x) / b.res == (-1.0 / b.res) * x + b.T / b.res;
    }
  }

  /** Summands that are each a quartic in `x` (with `q` standing for x^4) add
      up to the quartic of the summed coefficients. */
  lemma {:induction false} SumQuartic(bs: seq<Boundary>, f: Boundary -> real,
                                      g4: Boundary -> real, g1: Boundary -> real, g0: Boundary -> real,
                                      q: real, x: real)
    requires forall b :: f(b) == g4(b) * q + g1(b) * x + g0(b)
    ensures Sum(bs, f) == Sum(bs, g4) * q + Sum(bs, g1) * x + Sum(bs, g0)
    decreases |bs|
  {
    if bs != [] {
      var b, rest := bs[0], bs[1..];
      SumQuartic(rest, f, g4, g1, g0, q, x);
      Regroup(Sum(bs, f), f(b), Sum(rest, f),
              g4(b), g1(b), g0(b),
              Sum(rest, g4), Sum(rest, g1), Sum(rest, g0),
              Sum(bs, g4), Sum(bs, g1), Sum(bs, g0), q, x);
    }
  }

  lemma NetHeatFlowSums(bs: seq<Boundary>, x: real)
    ensures NetHeatFlow(bs, x) == Sum(bs, Coef4Term) * Pow4(x) + Sum(bs, Coef1Term) * x + Sum(bs, Coef0Term)
  {
    FluxAtTerms(x);
    SumQuartic(bs, FluxAt(x), Coef4Term, Coef1Term, Coef0Term, Pow4(x), x);
  }

  lemma FluxAtTerms(x: real)
    ensures forall b :: FluxAt(x)(b) == Coef4Term(b) * Pow4(x) + Coef1Term(b) * x + Coef0Term(b)
  {
    forall b ensures FluxAt(x)(b) == Coef4Term(b) * Pow4(x) + Coef1Term(b) * x + Coef0Term(b) {
      FluxTerms(b, x);
    }
  }

  /** Adding a summand to each coefficient adds its quartic to the total. */
  lemma Regroup(total: real, head: real, tail: real,
                a4: real, a1: real, a0: real, s4: real, s1: real, s0: real,
                t4: real, t1: real, t0: real, q: real, x: real)
    requires total == head + tail
    requires head == a4 * q + a1 * x + a0 && tail == s4 * q + s1 * x + s0
    requires t4 == a4 + s4 && t1 == a1 + s1 && t0 == a0 + s0
    ensures total == t4 * q + t1 * x + t0
  {
    assert t4 * q == a4 * q + s4 * q;
    assert t1 * x == a1 * x + s1 * x;
  }

  /** The coefficient list of a list the loop finishes is the quartic of the sums. */
  lemma EvalPolyOf(bs: seq<Boundary>, x: real)
    requires AllRecognized(bs)
    ensures Eval(PolyOf(bs), x) == Sum(bs, Coef4Term) * Pow4(x) + Sum(bs, Coef1Term) * x + Sum(bs, Coef0Term)
  {
    AssembleSums(bs);
    EvalSums(bs, x);
  }

  lemma EvalSums(bs: seq<Boundary>, x: real)
    requires Assemble(bs) == Ok(Coefficients(Sum(bs, Coef0Term), Sum(bs, Coef1Term), Sum(bs, Coef4Term)))
    ensures Eval(PolyOf(bs), x) == Sum(bs, Coef4Term) * Pow4(x) + Sum(bs, Coef1Term) * x + Sum(bs, Coef0Term)
  {
    var c := Coefficients(Sum(bs, Coef0Term), Sum(bs, Coef1Term), Sum(bs, Coef4Term));
    EvalAssembled(bs, c, x);
  }

  lemma EvalAssembled(bs: seq<Boundary>, c: Coefficients, x: real)
    requires Assemble(bs) == Ok(c)
    ensures Eval(PolyOf(bs), x) == c.coef4 * Pow4(x) + c.coef1 * x + c.coef0
  {
    PolyOfAssembled(bs, c);
    EvalPolynomial(c, x);
  }

  lemma PolyOfAssembled(bs: seq<Boundary>, c: Coefficients)
    requires Assemble(bs) == Ok(c)
    ensures PolyOf(bs) == Polynomial(c)
  {
  }

  lemma EvalPolynomial(c: Coefficients, x: real)
    ensures Eval(Polynomial(c), x) == c.coef4 * Pow4(x) + c.coef1 * x + c.coef0
  {
  }

  /** Lines 34-35 and 41-45: the coefficient list, evaluated at a body
      temperature `x`, is the net heat flowing into the body, so its roots are
      exactly the temperatures of zero net heat flow. */
  lemma PolynomialIsNetHeatFlow(bs: seq<Boundary>, x: real)
    requires AllRecognized(bs)
    ensures Eval(PolyOf(bs), x) == NetHeatFlow(bs, x)
  {
    EvalPolyOf(bs, x);
    NetHeatFlowSums(bs, x);
  }

  // ---------------------------------------------------------------------------
  // A physical list: at most one equilibrium

  lemma PhysicalRecognized(bs: seq<Boundary>)
    requires Physical(bs)
    ensures AllRecognized(bs)
  {
  }

  /** Lines 41-45: with positive resistances and areas, `coef4` and `coef1` are
      never positive and, the list being non-empty, one of them is negative. */
  lemma {:induction false} PhysicalSigns(bs: seq<Boundary>)
    requires Physical(bs)
    ensures Sum(bs, Coef4Term) <= 0.0 && Sum(bs, Coef1Term) <= 0.0
    ensures Sum(bs, Coef4Term) < 0.0 || Sum(bs, Coef1Term) < 0.0
    decreases |bs|
  {
    var b := bs[0];
    assert b.Conductive? ==> -1.0 / b.res < 0.0;
    if |bs| > 1 {
      assert Physical(bs[1..]) by {
        forall i | 0 <= i < |bs[1..]|
          ensures (bs[1..][i].Conductive? && bs[1..][i].res > 0.0) || (bs[1..][i].Radiative? && bs[1..][i].eA > 0.0)
        {
          assert bs[1..][i] == bs[i + 1];
        }
      }
      PhysicalSigns(bs[1..]);
    } else {
      assert bs[1..] == [];
    }
  }

  /** The quartic of a physical list falls strictly on the positive temperatures. */
  lemma PolynomialDecreasing(bs: seq<Boundary>, x: real, y: real)
    requires Physical(bs) && 0.0 < x < y
    ensures Eval(PolyOf(bs), y) < Eval(PolyOf(bs), x)
  {
    PhysicalRecognized(bs);
    PhysicalSigns(bs);
    AssembleSums(bs);
    AssembledDecreasing(bs, Sum(bs, Coef4Term), Sum(bs, Coef1Term), Sum(bs, Coef0Term), x, y);
  }

  lemma AssembledDecreasing(bs: seq<Boundary>, c4: real, c1: real, c0: real, x: real, y: real)
    requires Assemble(bs) == Ok(Coefficients(c0, c1, c4)) && 0.0 < x < y
    requires c4 <= 0.0 && c1 <= 0.0 && (c4 < 0.0 || c1 < 0.0)
    ensures Eval(PolyOf(bs), y) < Eval(PolyOf(bs), x)
  {
    EvalAssembled(bs, Coefficients(c0, c1, c4), x);
    EvalAssembled(bs, Coefficients(c0, c1, c4), y);
    QuarticDecreasing(c4, c1, c0, x, y, Eval(PolyOf(bs), x), Eval(PolyOf(bs), y));
  }

  /** Line 57: the quartic of a physical list has at most one positive root. */
  lemma AtMostOnePositiveRoot(bs: seq<Boundary>, x: real, y: real)
    requires Physical(bs) && x > 0.0 && y > 0.0
    requires Eval(PolyOf(bs), x) == 0.0 && Eval(PolyOf(bs), y) == 0.0
    ensures x == y
  {
    if x < y {
      PolynomialDecreasing(bs, x, y);
    } else if y < x {
      PolynomialDecreasing(bs, y, x);
    }
  }

  /** The net heat flow of a physical list vanishes at no more than one positive temperature. */
  lemma AtMostOneEquilibrium(bs: seq<Boundary>, x: real, y: real)
    requires Physical(bs) && x > 0.0 && y > 0.0
    requires NetHeatFlow(bs, x) == 0.0 && NetHeatFlow(bs, y) == 0.0
    ensures x == y
  {
    PolynomialIsNetHeatFlow(bs, x);
    PolynomialIsNetHeatFlow(bs, y);
    AtMostOnePositiveRoot(bs, x, y);
  }

  // ---------------------------------------------------------------------------
  // The result, given a root finder that keeps its contract

  /** Lines 51-61: if the root finder reports only roots, a returned
      temperature is positive and the net heat flow vanishes there; for a
      physical list it is the only such temperature. */
  lemma EquilibriumSound(bs: seq<Boundary>, polyRoots: seq<real> -> seq<Complex>)
    requires RootsSound(PolyOf(bs), polyRoots(PolyOf(bs)))
    ensures Equilibrium(bs, polyRoots).Ok? ==>
              var t := Equilibrium(bs, polyRoots).value;
              AllRecognized(bs) && t > 0.0 && NetHeatFlow(bs, t) == 0.0 &&
              (Physical(bs) ==> forall y :: y > 0.0 && NetHeatFlow(bs, y) == 0.0 ==> y == t)
  {
    var r := Equilibrium(bs, polyRoots);
    if r.Ok? {
      var t, roots := r.value, polyRoots(PolyOf(bs));
      var k :| 0 <= k < |roots| && roots[k] == Complex(t, 0.0);
      assert Eval(PolyOf(bs), t) == 0.0;
      PolynomialIsNetHeatFlow(bs, t);
      if Physical(bs) {
        forall y | y > 0.0 && NetHeatFlow(bs, y) == 0.0 ensures y == t {
          AtMostOneEquilibrium(bs, y, t);
        }
      }
    }
  }

  /** Lines 55-60: for a physical list with an equilibrium `t` and a root
      finder that reports all real roots and only roots, every positive real
      candidate is `t`, so the call returns `t` or fails the "exactly one"
      assertion; it never returns another temperature. */
  lemma EquilibriumComplete(bs: seq<Boundary>, polyRoots: seq<real> -> seq<Complex>, t: real)
    requires Physical(bs)
    requires RootsSound(PolyOf(bs), polyRoots(PolyOf(bs)))
    requires RootsComplete(PolyOf(bs), polyRoots(PolyOf(bs)))
    requires t > 0.0 && NetHeatFlow(bs, t) == 0.0
    ensures Complex(t, 0.0) in Filter(polyRoots(PolyOf(bs)), IsPositiveReal)
    ensures forall z :: z in Filter(polyRoots(PolyOf(bs)), IsPositiveReal) ==> z == Complex(t, 0.0)
    ensures Equilibrium(bs, polyRoots) == Ok(t) || Equilibrium(bs, polyRoots) == Err(NotExactlyOneRoot)
  {
    PhysicalRecognized(bs);
    PhysicalSigns(bs);
    AssembleSums(bs);
    var p := PolyOf(bs);
    var roots := polyRoots(p);
    assert NonZero(p) by {
      if Sum(bs, Coef4Term) < 0.0 {
        assert p[0] != 0.0;
      } else {
        assert p[3] != 0.0;
      }
    }
    PolynomialIsNetHeatFlow(bs, t);
    assert Complex(t, 0.0) in roots;
    forall z | z in Filter(roots, IsPositiveReal) ensures z == Complex(t, 0.0) {
      var k :| 0 <= k < |roots| && roots[k] == z;
      AtMostOnePositiveRoot(bs, z.re, t);
    }
    var candidates := Filter(roots, IsPositiveReal);
    if |candidates| == 1 {
      assert candidates[0] in candidates;
    }
  }

  /** With a root finder that, besides keeping its contract, reports each
      positive real value at most once, a physical list with an equilibrium
      `t` yields exactly `t`. */
  lemma EquilibriumExact(bs: seq<Boundary>, polyRoots: seq<real> -> seq<Complex>, t: real)
    requires Physical(bs)
    requires RootsSound(PolyOf(bs), polyRoots(PolyOf(bs)))
    requires RootsComplete(PolyOf(bs), polyRoots(PolyOf(bs)))
    requires PositiveReportedOnce(polyRoots(PolyOf(bs)))
    requires t > 0.0 && NetHeatFlow(bs, t) == 0.0
    ensures Equilibrium(bs, polyRoots) == Ok(t)
  {
    EquilibriumComplete(bs, polyRoots, t);
    PhysicalRecognized(bs);
    var roots := polyRoots(PolyOf(bs));
    var candidates := Filter(roots, IsPositiveReal);
    var c := Complex(t, 0.0);
    FilterCounts(roots, IsPositiveReal);
    AllSameCount(candidates, c);
    assert multiset(candidates)[c] == multiset(roots)[c] <= 1;
    assert c in multiset(candidates);
  }

  /** A list whose entries are all `c` has as many entries as copies of `c`. */
  lemma {:induction false} AllSameCount(s: seq<Complex>, c: Complex)
    requires forall z :: z in s ==> z == c
    ensures |s| == multiset(s)[c]
    decreases |s|
  {
    if s != [] {
      assert s == [s[0]] + s[1..];
      assert multiset(s) == multiset{s[0]} + multiset(s[1..]);
      assert forall z :: z in s[1..] ==> z in s;
      AllSameCount(s[1..], c);
      assert s[0] in s;
      assert multiset(s)[c] == 1 + multiset(s[1..])[c];
    }
  }

  /** An empty list gives the zero polynomial, for which `np.roots` reports
      nothing, so the call fails the count assertion. */
  lemma EmptyListFails(polyRoots: seq<real> -> seq<Complex>)
    requires RootsSound(PolyOf([]), polyRoots(PolyOf([])))
    ensures Equilibrium([], polyRoots) == Err(NotExactlyOneRoot)
  {
    var p := PolyOf([]);
    assert p == [0.0, 0.0, 0.0, 0.0, 0.0];
    assert !NonZero(p);
    assert polyRoots(p) == [];
  }

  // ---------------------------------------------------------------------------
  // The all-conductive case: degree one and a closed form

  /** Thermal conductance 1/res of a conductive boundary [W/K]. */
  function Conductance(b: Boundary): real
  {
    if b.Conductive? && b.res != 0.0 then 1.0 / b.res else 0.0
  }

  /** Reservoir temperature weighted by conductance [W]. */
  function WeightedTemperature(b: Boundary): real
  {
    if b.Conductive? then b.T * Conductance(b) else 0.0
  }

  predicate AllConductive(bs: seq<Boundary>)
  {
    |bs| > 0 && forall i :: 0 <= i < |bs| ==> bs[i].Conductive? && bs[i].res > 0.0
  }

  /** The conductance-weighted mean of the reservoir temperatures. */
  function MeanReservoirTemperature(bs: seq<Boundary>): real
    requires Sum(bs, Conductance) != 0.0
  {
    Sum(bs, WeightedTemperature) / Sum(bs, Conductance)
  }

  /** Lines 44-48: with only conductive boundaries the quartic coefficient is
      zero, numpy's root finder reduces to the linear solve `DegreeOneRoots`,
      and the result is the conductance-weighted mean Σ(T/res) / Σ(1/res) of
      the reservoir temperatures when it is positive, the assertion failure
      otherwise. */
  lemma ConductiveEquilibrium(bs: seq<Boundary>)
    requires AllConductive(bs)
    ensures Sum(bs, Conductance) > 0.0
    ensures var m := MeanReservoirTemperature(bs);
            Equilibrium(bs, DegreeOneRoots) == if m > 0.0 then Ok(m) else Err(NotExactlyOneRoot)
  {
    ConductiveSums(bs);
    LinearSelection(Sum(bs, Conductance), Sum(bs, WeightedTemperature));
  }

  /** For conductive boundaries the quartic coefficient vanishes, the linear
      one is minus the total conductance and the constant one is the weighted
      temperature sum. */
  lemma ConductiveSums(bs: seq<Boundary>)
    requires AllConductive(bs)
    ensures Sum(bs, Conductance) > 0.0
    ensures Assemble(bs) == Ok(Coefficients(Sum(bs, WeightedTemperature), -Sum(bs, Conductance), 0.0))
  {
    ConductiveTerms(bs);
    SumPositive(bs, Conductance);
    AssembleSums(bs);
    SumScaled(bs, Coef4Term, Conductance, 0.0);
    SumScaled(bs, Coef1Term, Conductance, -1.0);
    SumScaled(bs, Coef0Term, WeightedTemperature, 1.0);
  }

  /** What each conductive boundary adds, in terms of its conductance. */
  lemma ConductiveTerms(bs: seq<Boundary>)
    requires AllConductive(bs)
    ensures AllRecognized(bs)
    ensures forall i :: 0 <= i < |bs| ==> Conductance(bs[i]) > 0.0
    ensures forall i :: 0 <= i < |bs| ==> Coef4Term(bs[i]) == 0.0 * Conductance(bs[i])
    ensures forall i :: 0 <= i < |bs| ==> Coef1Term(bs[i]) == -1.0 * Conductance(bs[i])
    ensures forall i :: 0 <= i < |bs| ==> Coef0Term(bs[i]) == 1.0 * WeightedTemperature(bs[i])
  {
    forall i | 0 <= i < |bs| ensures Coef0Term(bs[i]) == 1.0 * WeightedTemperature(bs[i]) {
      var b := bs[i];
      assert b.T / b.res == b.T * (1.0 / b.res);
    }
  }

  lemma {:induction false} SumPositive(bs: seq<Boundary>, f: Boundary -> real)
    requires |bs| > 0 && forall i :: 0 <= i < |bs| ==> f(bs[i]) > 0.0
    ensures Sum(bs, f) > 0.0
    decreases |bs|
  {
    if |bs| > 1 {
      assert forall i :: 0 <= i < |bs| - 1 ==> bs[1..][i] == bs[i + 1];
      SumPositive(bs[1..], f);
    } else {
      assert bs[1..] == [];
    }
  }

  /** The degree-one root finder and the selection on `[0, 0, 0, -g, w]`. */
  lemma LinearSelection(g: real, w: real)
    requires g > 0.0
    ensures PickRoot(DegreeOneRoots(Polynomial(Coefficients(w, -g, 0.0))))
            == if w / g > 0.0 then Ok(w / g) else Err(NotExactlyOneRoot)
  {
    var p := Polynomial(Coefficients(w, -g, 0.0));
    var m := w / g;
    assert -w / -g == m;
    var roots := DegreeOneRoots(p);
    assert roots == [Complex(m, 0.0)];
    assert roots[..0] == [];
    assert Filter(roots, IsPositiveReal) == if m > 0.0 then [Complex(m, 0.0)] else [];
  }

  lemma SumSingle(b: Boundary, f: Boundary -> real)
    ensures Sum([b], f) == f(b)
  {
    assert [b][1..] == [];
  }

  lemma SumPair(b: Boundary, b': Boundary, f: Boundary -> real)
    ensures Sum([b, b'], f) == f(b) + f(b')
  {
    assert [b, b'][1..] == [b'];
    SumSingle(b', f);
  }

  /** Tests at test_equilibrium_temperature.py:7-17: one conductive boundary
      gives the reservoir temperature. */
  lemma SingleConductive(T: real, res: real)
    requires T > 0.0 && res > 0.0
    ensures Equilibrium([Conductive(T, res)], DegreeOneRoots) == Ok(T)
  {
    var bs := [Conductive(T, res)];
    ConductiveEquilibrium(bs);
    SumSingle(Conductive(T, res), Conductance);
    SumSingle(Conductive(T, res), WeightedTemperature);
    var g := 1.0 / res;
    assert Sum(bs, Conductance) == g;
    assert Sum(bs, WeightedTemperature) == T * g;
    assert g > 0.0;
    assert MeanReservoirTemperature(bs) == (T * g) / g;
    assert (T * g) / g == T;
  }

  /** Tests at test_equilibrium_temperature.py:33-46: two conductive boundaries
      of equal resistance give the mean of the two reservoir temperatures. */
  lemma TwoConductiveEqualResistance(T1: real, T2: real, res: real)
    requires T1 + T2 > 0.0 && res > 0.0
    ensures Equilibrium([Conductive(T1, res), Conductive(T2, res)], DegreeOneRoots) == Ok((T1 + T2) / 2.0)
  {
    var bs := [Conductive(T1, res), Conductive(T2, res)];
    ConductiveEquilibrium(bs);
    SumPair(Conductive(T1, res), Conductive(T2, res), Conductance);
    SumPair(Conductive(T1, res), Conductive(T2, res), WeightedTemperature);
    var g := 1.0 / res;
    assert Sum(bs, Conductance) == g + g;
    assert Sum(bs, WeightedTemperature) == T1 * g + T2 * g;
    assert g > 0.0;
    HalfOfSum(T1, T2, g);
    assert MeanReservoirTemperature(bs) == (T1 + T2) / 2.0;
  }

  lemma HalfOfSum(T1: real, T2: real, g: real)
    requires g > 0.0
    ensures (T1 * g + T2 * g) / (g + g) == (T1 + T2) / 2.0
  {
    assert T1 * g + T2 * g == (T1 + T2) * g;
    assert g + g == 2.0 * g;
  }

  /** Tests at test_equilibrium_temperature.py:20-30: for one radiative boundary
      the reservoir temperature is the equilibrium, so a root finder that keeps
      its contract leads to that temperature or to the assertion failure. */
  lemma SingleRadiative(T: real, eA: real, polyRoots: seq<real> -> seq<Complex>)
    requires T > 0.0 && eA > 0.0
    requires RootsSound(PolyOf([Radiative(T, eA)]), polyRoots(PolyOf([Radiative(T, eA)])))
    requires RootsComplete(PolyOf([Radiative(T, eA)]), polyRoots(PolyOf([Radiative(T, eA)])))
    ensures Equilibrium([Radiative(T, eA)], polyRoots) == Ok(T)
         || Equilibrium([Radiative(T, eA)], polyRoots) == Err(NotExactlyOneRoot)
  {
    var bs := [Radiative(T, eA)];
    SumSingle(Radiative(T, eA), FluxAt(T));
    assert NetHeatFlow(bs, T) == 0.0;
    EquilibriumComplete(bs, polyRoots, T);
  }

  /** The same with a root finder that reports each positive real value at
      most once: the result is exactly the reservoir temperature. */
  lemma SingleRadiativeExact(T: real, eA: real, polyRoots: seq<real> -> seq<Complex>)
    requires T > 0.0 && eA > 0.0
    requires RootsSound(PolyOf([Radiative(T, eA)]), polyRoots(PolyOf([Radiative(T, eA)])))
    requires RootsComplete(PolyOf([Radiative(T, eA)]), polyRoots(PolyOf([Radiative(T, eA)])))
    requires PositiveReportedOnce(polyRoots(PolyOf([Radiative(T, eA)])))
    ensures Equilibrium([Radiative(T, eA)], polyRoots) == Ok(T)
  {
    var bs := [Radiative(T, eA)];
    SumSingle(Radiative(T, eA), FluxAt(T));
    assert NetHeatFlow(bs, T) == 0.0;
    EquilibriumExact(bs, polyRoots, T);
  }

  // ---------------------------------------------------------------------------
  // Order of the boundaries

  /** Lines 39-45: each accumulator is a sum, so permuting the boundaries
      changes neither whether the loop succeeds nor the coefficients, nor the
      resulting temperature. */
  lemma PermutationInvariant(bs: seq<Boundary>, bs': seq<Boundary>, polyRoots: seq<real> -> seq<Complex>)
    requires multiset(bs) == multiset(bs')
    ensures Assemble(bs).Ok? <==> Assemble(bs').Ok?
    ensures Assemble(bs).Ok? ==> Assemble(bs) == Assemble(bs')
    ensures Assemble(bs).Ok? ==> Equilibrium(bs, polyRoots) == Equilibrium(bs', polyRoots)
  {
    PermutedRecognized(bs, bs');
    PermutedRecognized(bs', bs);
    if AllRecognized(bs) {
      AssembleSums(bs);
      AssembleSums(bs');
      SumPermutation(bs, bs', Coef0Term);
      SumPermutation(bs, bs', Coef1Term);
      SumPermutation(bs, bs', Coef4Term);
    }
  }

  lemma PermutedRecognized(bs: seq<Boundary>, bs': seq<Boundary>)
    requires multiset(bs) == multiset(bs')
    ensures AllRecognized(bs) ==> AllRecognized(bs')
  {
    if AllRecognized(bs) {
      forall i | 0 <= i < |bs'| ensures Recognized(bs'[i]) {
        assert bs'[i] in multiset(bs);
        var k :| 0 <= k < |bs| && bs[k] == bs'[i];
      }
    }
  }
}

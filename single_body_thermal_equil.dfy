/** The equilibrium solver of a single lumped thermal body: boundary records,
    the heat flux through each, the fold that produces the coefficients of
    the zero-net-heat-flow quartic, the selection of its one positive real
    root, and the entry point that chains them. Temperatures are in kelvin,
    resistances in kelvin per watt, effective areas in square metres, and all
    arithmetic is exact. */
module SingleBodyThermalEquil {
  import opened Polynomials

  /** Stefan–Boltzmann constant, CODATA 2018 [W m^-2 K^-4]. */
  const StefanBoltzmann: real := 5.670374419e-8

  /** A boundary of the body: a reservoir at temperature `T` reached through a
      thermal resistance `res`, or seen by radiation through an effective area
      (emissivity times area) `eA`. `Other` stands for any value of another
      kind that a caller may pass. */
  datatype Boundary =
    | Conductive(T: real, res: real)
    | Radiative(T: real, eA: real)
    | Other

  /** How a call fails. */
  datatype Error =
    | UnrecognizedBoundary  // an element of neither kind: ValueError
    | ZeroResistance        // a conductive element with res == 0: ZeroDivisionError
    | NotExactlyOneRoot     // the count of positive real roots is not 1: AssertionError

  datatype Result<T> = Ok(value: T) | Err(error: Error)

  /** The three accumulators; the quartic is coef4*x^4 + coef1*x + coef0. */
  datatype Coefficients = Coefficients(coef0: real, coef1: real, coef4: real)

  /** A boundary the fold can add in without failing. */
  predicate Recognized(b: Boundary)
  {
    b.Radiative? || (b.Conductive? && b.res != 0.0)
  }

  predicate AllRecognized(bs: seq<Boundary>)
  {
    forall i :: 0 <= i < |bs| ==> Recognized(bs[i])
  }

  /** The error the fold raises on an element that is not recognized. */
  function FailureOf(b: Boundary): Error
  {
    if b.Other? then UnrecognizedBoundary else ZeroResistance
  }

  /** A physically meaningful list: non-empty, only the two kinds, positive
      resistances and effective areas. */
  predicate Physical(bs: seq<Boundary>)
  {
    |bs| > 0 &&
    forall i :: 0 <= i < |bs| ==>
      (bs[i].Conductive? && bs[i].res > 0.0) || (bs[i].Radiative? && bs[i].eA > 0.0)
  }

  /** Heat flowing into a body at temperature `x` through one boundary [W].
      The elements the solver rejects (`Other`, a zero resistance) are given
      no flux here; every statement about a result assumes none is present. */
  function Flux(b: Boundary, x: real): real
  {
    match b
    case Conductive(T, res) => if res != 0.0 then (T - x) / res else 0.0
    case Radiative(T, eA) => StefanBoltzmann * eA * (Pow4(T) - Pow4(x))
    case Other => 0.0
  }

  /** Total heat flowing into a body at temperature `x` [W]. */
  function NetHeatFlow(bs: seq<Boundary>, x: real): real
  {
    Sum(bs, FluxAt(x))
  }

  function FluxAt(x: real): Boundary -> real
  {
    b => Flux(b, x)
  }

  // ---------------------------------------------------------------------------
  // Sums over a boundary list, the reference definitions of the accumulators

  function Sum(bs: seq<Boundary>, term: Boundary -> real): real
    decreases |bs|
  {
    if bs == [] then 0.0 else term(bs[0]) + Sum(bs[1..], term)
  }

  /** What one boundary adds to the constant coefficient. */
  function Coef0Term(b: Boundary): real
  {
    match b
    case Radiative(T, eA) => StefanBoltzmann * eA * Pow4(T)
    case Conductive(T, res) => if res != 0.0 then T / res else 0.0
    case Other => 0.0
  }

  /** What one boundary adds to the linear coefficient. */
  function Coef1Term(b: Boundary): real
  {
    if b.Conductive? && b.res != 0.0 then -1.0 / b.res else 0.0
  }

  /** What one boundary adds to the quartic coefficient. */
  function Coef4Term(b: Boundary): real
  {
    if b.Radiative? then -StefanBoltzmann * b.eA else 0.0
  }

  // ---------------------------------------------------------------------------
  // Stage 1: the coefficient fold

  /** One iteration of the loop: the accumulators after `b`, or the error it raises. */
  function Accumulate(c: Coefficients, b: Boundary): (r: Result<Coefficients>)
    ensures r.Ok? <==> Recognized(b)
    ensures r.Err? ==> r.error == FailureOf(b)
  {
    match b
    case Radiative(T, eA) =>
      Ok(Coefficients(c.coef0 + StefanBoltzmann * eA * Pow4(T), c.coef1, c.coef4 + -StefanBoltzmann * eA))
    case Conductive(T, res) =>
      if res == 0.0 then Err(ZeroResistance)
      else Ok(Coefficients(c.coef0 + T / res, c.coef1 + -1.0 / res, c.coef4))
    case Other => Err(UnrecognizedBoundary)
  }

  /** The loop run over `bs` from left to right, stopping at the first error. */
  function Assemble(bs: seq<Boundary>): (r: Result<Coefficients>)
    ensures r.Ok? <==> AllRecognized(bs)
    ensures r.Err? ==> r.error != NotExactlyOneRoot
    decreases |bs|
  {
    if bs == [] then Ok(Coefficients(0.0, 0.0, 0.0))
    else
      var init := bs[..|bs| - 1];
      assert forall i :: 0 <= i < |init| ==> init[i] == bs[i];
      match Assemble(init)
      case Err(e) => Err(e)
      case Ok(c) => Accumulate(c, bs[|bs| - 1])
  }

  /** The first element the fold cannot add in decides the error. */
  lemma {:induction false} AssembleFirstFailure(bs: seq<Boundary>, i: nat)
    requires i < |bs| && !Recognized(bs[i]) && AllRecognized(bs[..i])
    ensures Assemble(bs) == Err(FailureOf(bs[i]))
    decreases |bs|
  {
    var init := bs[..|bs| - 1];
    if i == |bs| - 1 {
      assert init == bs[..i];
    } else {
      assert init[i] == bs[i] && init[..i] == bs[..i];
      AssembleFirstFailure(init, i);
    }
  }

  /** The fold over one more element is one more `Accumulate`. */
  lemma AssembleStep(bs: seq<Boundary>, i: nat, c: Coefficients)
    requires i < |bs| && Assemble(bs[..i]) == Ok(c)
    ensures Assemble(bs[..i + 1]) == Accumulate(c, bs[i])
  {
    assert bs[..i + 1][..i] == bs[..i];
  }

  /** Lines 36-47: fold the boundaries into the three accumulators. */
  method AssembleCoefficients(boundaries: seq<Boundary>) returns (r: Result<Coefficients>)
    ensures r == Assemble(boundaries)
  {
    var coef0, coef1, coef4 := 0.0, 0.0, 0.0;
    for i := 0 to |boundaries|
      invariant Assemble(boundaries[..i]) == Ok(Coefficients(coef0, coef1, coef4))
    {
      ghost var next := Accumulate(Coefficients(coef0, coef1, coef4), boundaries[i]);
      AssembleStep(boundaries, i, Coefficients(coef0, coef1, coef4));
      match boundaries[i]
      case Radiative(T, eA) =>
        coef0 := coef0 + StefanBoltzmann * eA * Pow4(T);
        coef4 := coef4 + -StefanBoltzmann * eA;
        assert next.value.coef0 == coef0 && next.value.coef1 == coef1 && next.value.coef4 == coef4;
      case Conductive(T, res) =>
        if res == 0.0 {
          AssembleFirstFailure(boundaries, i);
          return Err(ZeroResistance);
        }
        coef0 := coef0 + T / res;
        coef1 := coef1 + -1.0 / res;
        assert next.value.coef0 == coef0 && next.value.coef1 == coef1 && next.value.coef4 == coef4;
      case Other =>
        AssembleFirstFailure(boundaries, i);
        return Err(UnrecognizedBoundary);
    }
    assert boundaries[..|boundaries|] == boundaries;
    r := Ok(Coefficients(coef0, coef1, coef4));
  }

  /** Line 48: the coefficient list handed to the root finder. It has five
      entries, its x^3 and x^2 entries are zero, and it evaluates to the quartic
      the accumulators describe. */
  function Polynomial(c: Coefficients): (p: seq<real>)
    ensures |p| == 5 && p[1] == 0.0 && p[2] == 0.0
    ensures forall x :: Eval(p, x) == c.coef4 * Pow4(x) + c.coef1 * x + c.coef0
  {
    var p := [c.coef4, 0.0, 0.0, c.coef1, c.coef0];
    EvalFiveEverywhere(p);
    p
  }

  /** The coefficient list built for `bs`, or the empty list when the fold fails. */
  function PolyOf(bs: seq<Boundary>): seq<real>
  {
    match Assemble(bs)
    case Ok(c) => Polynomial(c)
    case Err(_) => []
  }

  // ---------------------------------------------------------------------------
  // Stage 2: root selection

  /** Lines 55-60 as a value: the one positive real root, or the assertion
      failure. It succeeds exactly when one entry survives the filters, and a
      returned value is then the only positive real value reported. */
  function PickRoot(roots: seq<Complex>): (r: Result<real>)
    ensures r.Ok? <==> |Filter(roots, IsPositiveReal)| == 1
    ensures r.Ok? ==> r.value > 0.0 && Complex(r.value, 0.0) in roots
    ensures r.Ok? ==> forall z :: z in roots && IsPositiveReal(z) ==> z == Complex(r.value, 0.0)
    ensures r.Err? ==> r.error == NotExactlyOneRoot
  {
    var candidates := Filter(roots, IsPositiveReal);
    if |candidates| == 1 then
      assert candidates[0] in candidates;
      assert forall z :: z in candidates ==> z == candidates[0];
      Ok(candidates[0].re)
    else
      Err(NotExactlyOneRoot)
  }

  /** Two different positive real values reported make the call fail rather
      than choose one of them. */
  lemma TwoPositiveFail(roots: seq<Complex>, x: real, y: real)
    requires x > 0.0 && y > 0.0 && x != y
    requires Complex(x, 0.0) in roots && Complex(y, 0.0) in roots
    ensures PickRoot(roots) == Err(NotExactlyOneRoot)
  {
    var candidates := Filter(roots, IsPositiveReal);
    assert Complex(x, 0.0) in candidates && Complex(y, 0.0) in candidates;
    var i :| 0 <= i < |candidates| && candidates[i] == Complex(x, 0.0);
    var j :| 0 <= j < |candidates| && candidates[j] == Complex(y, 0.0);
    assert i != j;
  }

  /** Lines 55-60: keep the roots above zero, then the real ones, and return
      the real part of the single survivor. */
  method SelectRoot(roots: seq<Complex>) returns (r: Result<real>)
    ensures r == PickRoot(roots)
  {
    var positive: seq<Complex> := [];
    for i := 0 to |roots|
      invariant positive == Filter(roots[..i], AboveZero)
    {
      assert roots[..i + 1][..i] == roots[..i];
      if AboveZero(roots[i]) {
        positive := positive + [roots[i]];
      }
    }
    assert roots[..|roots|] == roots;
    var reals: seq<Complex> := [];
    for j := 0 to |positive|
      invariant reals == Filter(positive[..j], IsReal)
    {
      assert positive[..j + 1][..j] == positive[..j];
      if IsReal(positive[j]) {
        reals := reals + [positive[j]];
      }
    }
    assert positive[..|positive|] == positive;
    FilterTwice(roots);
    if |reals| == 1 {
      r := Ok(reals[0].re);
    } else {
      r := Err(NotExactlyOneRoot);
    }
  }

  // ---------------------------------------------------------------------------
  // The entry point

  /** `equilibrium_temperature` as a value; `polyRoots` stands for `np.roots`. */
  function Equilibrium(bs: seq<Boundary>, polyRoots: seq<real> -> seq<Complex>): (r: Result<real>)
    ensures r.Ok? ==> AllRecognized(bs) && r.value > 0.0 && Complex(r.value, 0.0) in polyRoots(PolyOf(bs))
    ensures r.Ok? ==> forall z :: z in polyRoots(PolyOf(bs)) && IsPositiveReal(z) ==> z == Complex(r.value, 0.0)
    ensures AllRecognized(bs) ==> (r.Ok? <==> |Filter(polyRoots(PolyOf(bs)), IsPositiveReal)| == 1)
    ensures !AllRecognized(bs) ==> r.Err? && r.error != NotExactlyOneRoot
  {
    match Assemble(bs)
    case Err(e) => Err(e)
    case Ok(c) => PickRoot(polyRoots(Polynomial(c)))
  }

  /** Lines 24-61. The foreign root finder is the parameter `polyRoots`. */
  method EquilibriumTemperature(boundaries: seq<Boundary>, polyRoots: seq<real> -> seq<Complex>)
    returns (r: Result<real>)
    ensures r == Equilibrium(boundaries, polyRoots)
  {
    var coefs := AssembleCoefficients(boundaries);
    if coefs.Err? {
      return Err(coefs.error);
    }
    var polyCoefs := Polynomial(coefs.value);
    var roots := polyRoots(polyCoefs);
    r := SelectRoot(roots);
  }
}

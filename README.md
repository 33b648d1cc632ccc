# single-body-thermal-equil in Dafny

This is a model of `equilibrium_temperature`, the solver at the centre of the
single-body-thermal-equil package. The solver answers one question: at what
temperature does a lumped body settle when heat reaches it through several
boundaries? A boundary is either of two kinds:

- a *conductive* boundary: a reservoir at temperature `T` seen through a
  thermal resistance `res`;
- a *radiative* boundary: surroundings at temperature `T` seen by a surface of
  effective area `eA` (emissivity times area).

The solver works in two stages:

1. A loop folds the boundaries into three accumulators. These are the
   coefficients of the zero-net-heat-flow quartic
   `coef4·x⁴ + coef1·x + coef0`. The loop rejects any value of another kind.
2. numpy's root finder solves that quartic. The solver keeps the roots that
   are above zero and real, checks that exactly one remains, and returns its
   real part.

The model uses Dafny's exact `real`. There are three modules:

- `Polynomials` (`polynomials.dfy`) holds numpy's side:
  - coefficient lists in numpy's order, evaluated by Horner's rule;
  - complex values;
  - the contract of the root finder, `RootsSound` and `RootsComplete`;
  - the degree-one root finder `DegreeOneRoots`, which is what `np.roots` does once it has stripped leading zero coefficients;
  - the two boolean-mask filters.
- `SingleBodyThermalEquil` (`single_body_thermal_equil.dfy`) holds the solver:
  - the `Boundary` records;
  - the heat flux through each boundary;
  - the loop method `AssembleCoefficients`, proved equal to the recursive fold `Assemble`;
  - the selection method `SelectRoot`, proved equal to `PickRoot`;
  - the entry point `EquilibriumTemperature`, proved equal to `Equilibrium`.

  The root finder is a parameter `polyRoots` of the entry point.
- `EquilibriumProperties` (`equilibrium_properties.dfy`) holds what the result means:
  - the accumulators are sums over the boundaries;
  - the quartic is the net heat flow into the body;
  - for positive resistances and areas the quartic falls strictly on `x > 0`, so there is at most one equilibrium;
  - a returned temperature is that equilibrium;
  - an all-conductive list has a closed form, the conductance-weighted mean temperature;
  - the order of the boundaries does not matter;
  - the unit tests appear as lemmas.

The three ways a call fails are values of `Error`:

- `UnrecognizedBoundary` is the `ValueError` raised for a value of another kind.
- `ZeroResistance` is the `ZeroDivisionError` that Python raises at `T / res` when `res == 0`.
- `NotExactlyOneRoot` is the `AssertionError` raised on the root count.

Two details of the root selection follow the code:

- A count of zero and a count of two or more both raise the same `AssertionError`, so the model has the single error `NotExactlyOneRoot` for both.
- The code first keeps `roots > 0`, which numpy evaluates on complex values by lexicographic order (`AboveZero`), and then keeps `np.isreal`. `FilterTwice` shows that the two filters together keep exactly the positive real values.

## Model

| member | source | states |
|---|---|---|
| SingleBodyThermalEquil.Accumulate | single_body_thermal_equil/single_body_thermal_equil.py:40-47 | one loop iteration succeeds exactly for a radiative boundary or a conductive one with nonzero resistance; otherwise it fails with `ValueError` for a value of another kind and with the division error for a zero resistance |
| SingleBodyThermalEquil.Assemble | single_body_thermal_equil/single_body_thermal_equil.py:36-47 | the fold over the whole list succeeds exactly when every element can be added in, and its failure is never the root-count assertion |
| SingleBodyThermalEquil.AssembleFirstFailure | single_body_thermal_equil/single_body_thermal_equil.py:39-47 | the first element the loop cannot add in decides the error the call raises |
| SingleBodyThermalEquil.AssembleStep | single_body_thermal_equil/single_body_thermal_equil.py:39-45 | running the loop over one more element is one more iteration on the accumulators so far |
| SingleBodyThermalEquil.AssembleCoefficients | single_body_thermal_equil/single_body_thermal_equil.py:36-47 | the imperative loop with its three `+=` accumulators computes the fold `Assemble`, including which error it raises |
| SingleBodyThermalEquil.Polynomial | single_body_thermal_equil/single_body_thermal_equil.py:48 | the coefficient list has five entries, its x³ and x² entries are zero, and it evaluates everywhere to `coef4·x⁴ + coef1·x + coef0` |
| SingleBodyThermalEquil.PickRoot | single_body_thermal_equil/single_body_thermal_equil.py:55-60 | the selection succeeds exactly when one positive real entry survives the filters; a returned temperature is positive, was reported, and is the only positive real value reported; every other outcome is the root-count assertion |
| SingleBodyThermalEquil.TwoPositiveFail | single_body_thermal_equil/single_body_thermal_equil.py:57 | two different positive real values reported make the call fail instead of choosing one |
| SingleBodyThermalEquil.SelectRoot | single_body_thermal_equil/single_body_thermal_equil.py:55-60 | the two filtering loops and the count check compute `PickRoot` |
| SingleBodyThermalEquil.Equilibrium | single_body_thermal_equil/single_body_thermal_equil.py:24-61 | a list the loop cannot finish fails with the loop's error; otherwise the call succeeds exactly when one positive real entry of the root finder's report survives the filters, and a returned temperature is positive, is a real entry of that report, and is the only positive real entry in it |
| SingleBodyThermalEquil.EquilibriumTemperature | single_body_thermal_equil/single_body_thermal_equil.py:24-61 | the whole function computes `Equilibrium` for any root finder passed in |
| Polynomials.EvalFive | single_body_thermal_equil/single_body_thermal_equil.py:48 | a five-entry coefficient list in numpy's order evaluates to the quartic it stands for |
| Polynomials.DegreeOneRoots | single_body_thermal_equil/single_body_thermal_equil.py:51 | on a list whose three leading entries are zero, the degree-one root finder reports every real root and only roots |
| Polynomials.DegreeOneZeros | single_body_thermal_equil/single_body_thermal_equil.py:51 | the real roots of `[0, 0, 0, a, b]`: exactly `-b/a` when `a ≠ 0`, every x when `a = b = 0`, none otherwise |
| Polynomials.Filter | single_body_thermal_equil/single_body_thermal_equil.py:55-56 | boolean-mask indexing keeps exactly the elements the mask accepts and never grows the array |
| Polynomials.FilterCounts | single_body_thermal_equil/single_body_thermal_equil.py:55-56 | boolean-mask indexing keeps every accepted element as many times as it occurs and drops every other one |
| Polynomials.FilterTwice | single_body_thermal_equil/single_body_thermal_equil.py:55-56 | keeping `roots > 0` (lexicographic on complex values) and then the real values leaves exactly the positive real values, in order |
| Polynomials.Pow4Increasing | single_body_thermal_equil/single_body_thermal_equil.py:41-42 | x⁴ rises strictly on the non-negative reals |
| Polynomials.QuarticDecreasing | single_body_thermal_equil/single_body_thermal_equil.py:48 | `c4·x⁴ + c1·x + c0` falls strictly on x > 0 when `c4, c1 ≤ 0` and one of them is negative |
| EquilibriumProperties.AssembleSums | single_body_thermal_equil/single_body_thermal_equil.py:36-45 | after the loop, `coef4` is the sum of `-σ·eA` over the radiative boundaries, `coef1` the sum of `-1/res` over the conductive ones, and `coef0` the sum of `σ·eA·T⁴` and `T/res` |
| EquilibriumProperties.SumAppend | single_body_thermal_equil/single_body_thermal_equil.py:39-45 | an accumulated sum over a concatenation is the sum of the two parts |
| EquilibriumProperties.SumPermutation | single_body_thermal_equil/single_body_thermal_equil.py:39-45 | an accumulated sum is the same for every ordering of the boundaries |
| EquilibriumProperties.PermutationInvariant | single_body_thermal_equil/single_body_thermal_equil.py:39-45 | permuting the boundaries changes neither whether the loop finishes nor the coefficients nor the returned temperature |
| EquilibriumProperties.UnrecognizedRejected | single_body_thermal_equil/single_body_thermal_equil.py:46-47 | a list holding a value of neither kind never yields a temperature, and it raises `ValueError` when that value is the first bad element |
| EquilibriumProperties.BogusInputRejected | single_body_thermal_equil/test_equilibrium_temperature.py:49-52 | two values of neither kind raise `ValueError` |
| EquilibriumProperties.FluxTerms | single_body_thermal_equil/single_body_thermal_equil.py:41-45 | the heat flowing in through one boundary is the quartic of that boundary's contribution to each accumulator |
| EquilibriumProperties.NetHeatFlowSums | single_body_thermal_equil/single_body_thermal_equil.py:34-45 | the net heat flow at x is the quartic whose coefficients are the three summed contributions |
| EquilibriumProperties.EvalPolyOf | single_body_thermal_equil/single_body_thermal_equil.py:36-48 | the coefficient list of a list the loop finishes evaluates to the quartic of the summed contributions |
| EquilibriumProperties.PolynomialIsNetHeatFlow | single_body_thermal_equil/single_body_thermal_equil.py:34-48 | the coefficient list evaluated at a body temperature is the net heat flowing into the body, so its roots are exactly the zero-net-flow temperatures |
| EquilibriumProperties.PhysicalSigns | single_body_thermal_equil/single_body_thermal_equil.py:41-45 | for a non-empty list with positive resistances and areas, `coef4 ≤ 0`, `coef1 ≤ 0`, and at least one of them is negative |
| EquilibriumProperties.PolynomialDecreasing | single_body_thermal_equil/single_body_thermal_equil.py:41-48 | for such a list the quartic falls strictly on the positive temperatures |
| EquilibriumProperties.AtMostOnePositiveRoot | single_body_thermal_equil/single_body_thermal_equil.py:57 | for such a list the quartic has at most one positive root, the at-most-one half of the count assertion |
| EquilibriumProperties.AtMostOneEquilibrium | single_body_thermal_equil/single_body_thermal_equil.py:57 | for such a list the net heat flow vanishes at most at one positive temperature |
| EquilibriumProperties.EquilibriumSound | single_body_thermal_equil/single_body_thermal_equil.py:51-61 | with a root finder that reports only roots, a returned temperature is positive, the net heat flow vanishes there, and for a physical list it is the only such temperature |
| EquilibriumProperties.EquilibriumComplete | single_body_thermal_equil/single_body_thermal_equil.py:55-60 | for a physical list with an equilibrium `t` and a root finder that reports all real roots and only roots, `t` survives the filters and nothing else does, so the call returns `t` or fails the count assertion, never another temperature |
| EquilibriumProperties.EquilibriumExact | single_body_thermal_equil/single_body_thermal_equil.py:51-61 | for a physical list with an equilibrium `t` and a root finder that keeps its contract and reports each positive real value at most once, the call returns exactly `t` |
| EquilibriumProperties.EmptyListFails | single_body_thermal_equil/single_body_thermal_equil.py:48-57 | an empty list gives the zero polynomial, for which the root finder reports nothing, so the call fails the count assertion |
| EquilibriumProperties.ConductiveSums | single_body_thermal_equil/single_body_thermal_equil.py:43-45 | with only conductive boundaries, `coef4 = 0`, `coef1` is minus the total conductance, and `coef0` is the conductance-weighted temperature sum |
| EquilibriumProperties.LinearSelection | single_body_thermal_equil/single_body_thermal_equil.py:48-60 | for `[0, 0, 0, -g, w]` with `g > 0`, the degree-one root finder and the selection return `w/g` when it is positive and fail the count assertion otherwise |
| EquilibriumProperties.ConductiveEquilibrium | single_body_thermal_equil/single_body_thermal_equil.py:44-60 | an all-conductive list with positive resistances yields the conductance-weighted mean `Σ(T/res) / Σ(1/res)` of the reservoir temperatures when that mean is positive, and fails the count assertion otherwise |
| EquilibriumProperties.SingleConductive | single_body_thermal_equil/test_equilibrium_temperature.py:7-17 | one conductive boundary yields its reservoir temperature |
| EquilibriumProperties.TwoConductiveEqualResistance | single_body_thermal_equil/test_equilibrium_temperature.py:33-46 | two conductive boundaries of equal resistance yield the mean of their temperatures |
| EquilibriumProperties.SingleRadiativeExact | single_body_thermal_equil/test_equilibrium_temperature.py:20-30 | with a root finder that keeps its contract and reports each positive real value at most once, one radiative boundary yields exactly its temperature |
| EquilibriumProperties.SingleRadiative | single_body_thermal_equil/test_equilibrium_temperature.py:20-30 | with a root finder that keeps its contract, one radiative boundary yields its temperature or fails the count assertion, never another temperature |

## Left out

- `np.roots` (line 51) is not modelled as an algorithm. It is the parameter `polyRoots`, and a lemma that needs it assumes its contract `RootsSound` / `RootsComplete`. `RootsSound` also says that the zero polynomial gets an empty report, as numpy gives once it has stripped all the leading zeros. Only the degree-one case, `DegreeOneRoots`, is computed.
- Floating point: all arithmetic is exact over `real`. That leaves out rounding in the sums and in the root values the finder returns, which an exact `np.isreal` test can then reject, and the way the order of a floating-point sum affects the result, which `SumPermutation` rules out here.
- EquilibriumComplete: does not prove that the call returns `t` rather than failing the count assertion. `RootsSound` and `RootsComplete` do not limit how often the finder reports a root. For a physical list the positive root is simple, since the derivative `4·coef4·x³ + coef1` is negative on x > 0, but the contract still admits a report that lists it twice. `EquilibriumExact` adds the assumption `PositiveReportedOnce` and proves the result is exactly `t`.
- The check at line 57 is a Python `assert`, and the model assumes assertions are enabled. Under `python -O` it is removed: zero candidates then raise `IndexError` at line 60, and several candidates return the first one.
- EquilibriumSound: proves at most one positive equilibrium and does not prove that one exists. Existence needs the intermediate value theorem, which is not modelled.
- SingleRadiative: states the same "this temperature or the count assertion" outcome as `EquilibriumComplete`, for the same reason. `SingleRadiativeExact` gives exactly `T` under `PositiveReportedOnce`.
- `Flux` gives no heat flow for the elements the solver rejects, a value of another kind or a zero resistance. Every statement about a returned temperature applies only to lists without such elements.
- The Stefan–Boltzmann constant is the CODATA 2018 value that `scipy.constants` supplies, written as an exact decimal.
- `demo()` (lines 64-90) and its numeric check of about 1268 K (test_equilibrium_temperature.py:55-58) are not modelled. The value is an approximate root of a true quartic, and the function prints to standard output.
- `setup.py` is packaging metadata and holds no logic.
- Python's dynamic typing is reduced to the three cases of `Boundary`. A namedtuple whose fields are not numbers is not modelled.

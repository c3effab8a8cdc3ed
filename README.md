# Heat-calculation engine, modelled in Dafny

This project models the numerical engine of a fire-engineering calculator.
The engine does three jobs:

- **Radiation.** It computes the radiant heat flux a person receives from a fire. Two models are used:
  - a rectangular radiating panel: view factor × flame emissivity × σ·T⁴;
  - a point source: χr·Q / (4πR²).
- **Tenable distance.** It finds the distance at which that flux falls to a tenability threshold. For the panel it uses a bisection on [0.01, 100] m. For the point source it uses a closed form.
- **Exposure along a walk.** It builds a timestep table of a walk past the fire, then sums the fractional effective dose (FED) along it. The tolerance-time law of PD 7974-6 is t_tol(q) = (1.33 / q^1.33)·60 s.

The modules follow the source files:

| module | file | source |
|---|---|---|
| `Constants` | `constants.dfy` | `app/src/lib/constants.ts` |
| `Types` | `types.dfy` | `app/src/lib/types.ts` |
| `Numerics` | `numerics.dfy` | JavaScript's `Math` functions, as the engine uses them |
| `Radiation` | `radiation.dfy` | `app/src/lib/radiation.ts` |
| `Geometry` | `geometry.dfy` | `app/src/lib/geometry.ts` |
| `Fed` | `fed.dfy` | `app/src/lib/fed.ts` |

Arithmetic is over exact reals.

`Math.floor`, `Math.ceil` and `Math.round` are defined outright. `Math.round` is ⌊x + 0.5⌋, and rounding to a grid is `Math.round(x·s)/s`.

The elementary functions (π, `Math.sqrt`, `Math.exp`, `Math.atan` and `**` with a real exponent) have no closed form over the reals. They travel as fields of the record `Numerics.Elementary`. Its `Valid()` predicate holds exactly the laws the proofs use:

- π is positive;
- `sqrt` is the non-negative square root;
- `exp(0) = 1`, and `exp` is positive and increasing;
- `pow(b, e)` is positive for b > 0 and increasing in b for e > 0.

Pure expressions in the source are Dafny functions, and the properties proved about them are lemmas. The four loops are methods with loop invariants. Three of them are proved against a specification function:

- the curve sampler against `CurvePoint`;
- the table generator against `Entry`;
- `computeFed`'s accumulation against `RunningFed` / `CumulativeFed`.

The bisection has no such function. Its `ensures` speak directly of `RectangularPanelHeatFlux` at the result and beyond it, and its loop invariants carry the proof.

Two behaviours of the code are worth knowing:

- **Bisection saturation.** When the threshold is met all the way to 100 m, the search returns 99.99, not 100. The bracket starts at lo = 0.01, hi = 100 (`app/src/lib/radiation.ts:68-69`). The loop runs while hi − lo > 0.001 (line 72), so lo stays below 100. The result is lo floored to the centimetre (line 83). `FindRectangularPanelDistance` proves that it returns 99.99.
- **Zero distances.** Each row's distance is rounded to 0.01 m (`app/src/lib/geometry.ts:33`). A lateral distance below 0.005 m can therefore give a row at distance 0 near the closest approach. Positivity is proved for a lateral distance of at least 0.005 m.

## Model

| member | source | states |
|---|---|---|
| Numerics.Floor | app/src/lib/radiation.ts:83 | `Math.floor`: the result is the greatest integer not above x |
| Numerics.Ceil | app/src/lib/geometry.ts:25 | `Math.ceil`: the result is the least integer not below x |
| Numerics.Round | app/src/lib/radiation.ts:109 | `Math.round`: the result lies in (x − 0.5, x + 0.5] |
| Numerics.RoundTo | app/src/lib/geometry.ts:29 | `Math.round(x·s)/s` is the grid point nearest x: it lies on the grid of step 1/s (`OnGrid`) and within half a step of x |
| Numerics.RoundToMonotone | app/src/lib/geometry.ts:33 | rounding to a grid never reverses the order of two values |
| Numerics.RoundToSeparates | app/src/lib/radiation.ts:109 | values at least one grid step apart round to distinct, ordered grid points |
| Numerics.RoundToZero | app/src/lib/geometry.ts:29 | zero rounds to zero |
| Radiation.ViewFactor | app/src/lib/radiation.ts:8-18 | no contract of its own; its properties are stated by `ViewFactorSymmetric` and `ViewFactorScaleInvariant` |
| Radiation.ViewFactorSymmetric | app/src/lib/radiation.ts:8-18 | the view factor is symmetric in width and height |
| Radiation.ViewFactorScaleInvariant | app/src/lib/radiation.ts:8-18 | the view factor depends only on the ratios X = w/2d and Y = h/2d: scaling all three lengths leaves it unchanged |
| Radiation.Emissivity | app/src/lib/radiation.ts:24-26 | emissivity is 0 for zero flame thickness and lies in [0, 1) for any non-negative thickness |
| Radiation.EmissivityIncreasing | app/src/lib/radiation.ts:24-26 | a thicker flame has strictly higher emissivity |
| Radiation.RectangularPanelHeatFlux | app/src/lib/radiation.ts:32-42 | no contract of its own; its properties are stated by `PanelFluxFactors`, `PanelFluxPositive`, `ZeroWidthPanelFlux` and `PanelFluxMonotone` |
| Radiation.PanelFluxFactors | app/src/lib/radiation.ts:32-42 | panel flux = view factor × (emissivity(width) · σ · (T+273)⁴); that intensity is independent of distance, non-negative, and positive for positive width above absolute zero |
| Radiation.PanelFluxPositive | app/src/lib/radiation.ts:32-42 | with positive width, a positive view factor and T ≠ −273 °C, the panel flux is positive |
| Radiation.ZeroWidthPanelFlux | app/src/lib/radiation.ts:38-41 | a panel of zero width (zero flame thickness) delivers no flux |
| Radiation.PanelFluxMonotone | app/src/lib/radiation.ts:52-55 | if the view factor does not grow with distance, neither does the panel flux |
| Radiation.PointSourceHeatFlux | app/src/lib/radiation.ts:48-50 | no contract of its own; its properties are stated by `PointSourceDecreasing`, `PointSourceInverseSquare` and `PointSourceFluxRoundTrip` |
| Radiation.SphereAreaPositive | app/src/lib/radiation.ts:49 | 4πR² is positive for R ≠ 0 |
| Radiation.SphereAreaIncreasing | app/src/lib/radiation.ts:49 | 4πR² strictly increases with R > 0 |
| Radiation.PointSourceDecreasing | app/src/lib/radiation.ts:48-50 | for χr·Q > 0, point-source flux is positive and strictly decreasing in distance |
| Radiation.PointSourceInverseSquare | app/src/lib/radiation.ts:48-50 | k times the distance gives k² times less flux |
| Radiation.FindPointSourceDistance | app/src/lib/radiation.ts:90-92 | no contract of its own; its properties are stated by `FindPointSourceDistanceSquares`, `FindPointSourceDistanceOfSquare`, `PointSourceDistanceRoundTrip` and `PointSourceDistanceIsBoundary` |
| Radiation.FindPointSourceDistanceSquares | app/src/lib/radiation.ts:90-92 | the closed-form distance R is positive and R²·4πq = χr·Q |
| Radiation.FindPointSourceDistanceOfSquare | app/src/lib/radiation.ts:91 | the closed form returns d whenever χr·Q/(4πq) = d² with d ≥ 0 |
| Radiation.PointSourceDistanceRoundTrip | app/src/lib/radiation.ts:90-92 | the flux at the closed-form distance for threshold q is exactly q |
| Radiation.PointSourceFluxRoundTrip | app/src/lib/radiation.ts:48-50 | the closed-form distance for the flux at d is d itself |
| Radiation.PointSourceDistanceIsBoundary | app/src/lib/radiation.ts:86-92 | flux at d is at least q if and only if d is at most the closed-form distance |
| Radiation.FindRectangularPanelDistance | app/src/lib/radiation.ts:57-84 | result is 0 iff flux at 0.01 m is below tenability; a nonzero result is a whole number of centimetres in [0.01, 99.99]; it is 99.99 when the threshold is met across [0.01, 100); for a flux non-increasing in distance, flux at the result meets the threshold and every distance 0.011 m or more beyond it does not (unless saturated) |
| Radiation.HalvingShrinks | app/src/lib/radiation.ts:72-80 | each halving of a bracket wider than 0.001 lowers ⌊width·1000⌋, so the search terminates |
| Radiation.CurvePoint | app/src/lib/radiation.ts:108-112 | a curve point's displayed distance lies within 0.005 m of the sampled distance |
| Radiation.SampleDistanceFacts | app/src/lib/radiation.ts:107 | consecutive samples are one step apart, and every sample is at least one step out |
| Radiation.SampleDistanceGap | app/src/lib/radiation.ts:107 | sample j lies at least one step beyond sample i for i < j |
| Radiation.SampleBelowCount | app/src/lib/radiation.ts:107 | a sample within maxDistance bounds the count of samples by ⌊maxDistance/step⌋ (termination) |
| Radiation.GenerateHeatFluxCurve | app/src/lib/radiation.ts:97-115 | point k is the curve point at (k+1)·step; every sample lies in [step, maxDistance]; the next multiple lies beyond maxDistance; there are no points iff maxDistance < step (which covers every step ≤ 0 the loop finishes on); displayed distances never decrease, and strictly increase for step ≥ 0.01 |
| Radiation.CurveDistancesOrdered | app/src/lib/radiation.ts:106-114 | the displayed distances of the samples are ordered, strictly for step ≥ 0.01 |
| Geometry.DistanceToFire | app/src/lib/geometry.ts:9-17 | no contract of its own; its properties are stated by `DistanceToFireSquared`, `ClosestApproachDistance`, `SymmetricAboutClosestApproach`, `NeverBelowLateral` and `PythagoreanTriple` |
| Geometry.PathDistance | app/src/lib/geometry.ts:15-16 | the distance is non-negative and its square is lateral² + along² |
| Geometry.DistanceToFireSquared | app/src/lib/geometry.ts:9-17 | d(t) ≥ 0 and d(t)² = lateral² + (offset − speed·t)² |
| Geometry.ClosestApproachDistance | app/src/lib/geometry.ts:9-17 | at t = offset/speed the distance equals the (non-negative) lateral distance |
| Geometry.PythagoreanTriple | app/src/lib/geometry.ts:9-17 | lateral 3, offset 4, speed 1, time 0 gives distance 5 |
| Geometry.SymmetricAboutClosestApproach | app/src/lib/geometry.ts:9-17 | d(tc − Δ) = d(tc + Δ) around the closest-approach time tc |
| Geometry.NeverBelowLateral | app/src/lib/geometry.ts:9-17 | the distance is never below the lateral distance, and (lateral ≥ 0) equals it iff the along-path offset is zero |
| Geometry.RowCount | app/src/lib/geometry.ts:24-25 | there is at least one row iff (T/v)/Δt > −1, and then the last row's index is the least whole number not below (T/v)/Δt |
| Geometry.RowsCoverWalk | app/src/lib/geometry.ts:24-25 | for a non-negative walk there is at least one row; the last row's nominal time reaches the end of the walk, and the one before falls short of it |
| Geometry.EntryTime | app/src/lib/geometry.ts:29 | row i's time lies on the 0.1 s grid, within 0.05 s of i·Δt |
| Geometry.Entry | app/src/lib/geometry.ts:29-34 | no contract of its own; its properties are stated by `EntryDistanceBounds`, `EntryAtClosestApproach` and `GenerateEntries` |
| Geometry.GenerateEntries | app/src/lib/geometry.ts:22-37 | the table has `RowCount` rows; row i is `Entry(i)`; every row has index i and a distance no smaller than the rounded lateral distance; distances are positive for lateral ≥ 0.005; a non-empty table starts at time 0, and a walk of non-negative length at positive speed and timestep has at least one row |
| Geometry.TableFacts | app/src/lib/geometry.ts:28-35 | any table built from `Entry` has the index, distance-presence, lower-bound, positivity, first-time and non-emptiness properties above |
| Geometry.EntryDistanceBounds | app/src/lib/geometry.ts:33 | a row's distance is at least the lateral distance rounded to 0.01, and positive for lateral ≥ 0.005 |
| Geometry.EntryAtClosestApproach | app/src/lib/geometry.ts:29-33 | a row timed exactly at the closest approach carries the lateral distance rounded to 0.01; by `EntryDistanceBounds` that is the least any row can carry |
| Fed.ToleranceTime | app/src/lib/fed.ts:9-11 | no contract of its own; its properties are stated by `ToleranceTimeDecreasing` and `ToleranceTimePositive` |
| Fed.ToleranceTimeDecreasing | app/src/lib/fed.ts:9-11 | tolerance time is positive and strictly shorter for a stronger flux |
| Fed.ToleranceTimePositive | app/src/lib/fed.ts:9-11 | tolerance time is positive for a positive flux |
| Fed.StepDose | app/src/lib/fed.ts:30-31 | no contract of its own; its properties are stated by `StepDoseMonotone` and `StepDosePositive` |
| Fed.StepDoseMonotone | app/src/lib/fed.ts:30-31 | over a non-negative timestep the per-step dose is non-negative and non-decreasing in flux, from zero flux (which adds nothing) upwards |
| Fed.StepDosePositive | app/src/lib/fed.ts:31 | over a positive timestep the per-step dose is positive |
| Fed.RowFlux | app/src/lib/fed.ts:28-29 | helper that reads a row's flux; its `ensures` only passes on the bound from `FluxReady` |
| Fed.RunningFed | app/src/lib/fed.ts:27-32 | no contract of its own; its properties are stated by `ComputeFed`, `CumulativeFedIsRunningFed`, `ConstantFluxFed`, `RunningFedNonDecreasing`, `RunningFedMonotoneInFlux` and `RunningFedIgnoresFirstRow` |
| Fed.CumulativeFed | app/src/lib/fed.ts:25-33 | the cumulative list up to row n has exactly n values |
| Fed.CumulativeFedIsRunningFed | app/src/lib/fed.ts:25-33 | value k of the cumulative list is the running dose after row k |
| Fed.ComputeFed | app/src/lib/fed.ts:19-36 | cumulative has max(1, \|entries\|) values, starts at 0, and each later value adds that row's dose (1/t_tol)·Δt to the one before; the total is the last value; with fewer than two rows the result is total 0 and [0] |
| Fed.ConstantFluxFed | app/src/lib/fed.ts:24-33 | with the same flux f ≥ 0 at every row, the dose after row i is i step doses at f: i·Δt/t_tol(f), or 0 when f = 0 |
| Fed.RunningFedNonDecreasing | app/src/lib/fed.ts:27-32 | over a non-negative timestep the running dose never decreases |
| Fed.RunningFedMonotoneInFlux | app/src/lib/fed.ts:27-32 | a flux at least as strong at every row gives at least as large a running dose |
| Fed.RunningFedIgnoresFirstRow | app/src/lib/fed.ts:27-28 | replacing the first row (whose distance is never read) changes no running dose |
| Fed.PanelFlux | app/src/lib/fed.ts:50-52 | no contract of its own; `ComputeBothFed` states the panel run's results in terms of it |
| Fed.PointFlux | app/src/lib/fed.ts:54-56 | no contract of its own; `ComputeBothFed` states the point-source run's results in terms of it |
| Fed.ComputeBothFed | app/src/lib/fed.ts:41-65 | times lists the rows' times in order; each model's cumulative list has max(1, \|entries\|) values following the running dose for that model's flux, and its total is the last value |

## Left out

- IEEE-754 behaviour is not modelled. This covers bit-exact results, the drift of the sampler's repeated `d += step`, and the regression values in the source's tests. The model samples exactly at k·step.
- The internals of `Math.sqrt`, `Math.exp`, `Math.atan` and `**` are not modelled. Only the laws in `Elementary.Valid()` are used.
- The view factor's range (0, 1) and its decrease with distance are not proved. They are properties of `atan`. The bisection's and the panel flux's monotone behaviour is stated under the hypothesis `PanelFluxNonIncreasing` (or `ViewFactorNonIncreasing`).
- Radiation.FindRectangularPanelDistance: does not state the result's relation to the internal bracket (lo − 0.01 < result ≤ lo). It states the bracket's consequences for the flux instead. The flux facts hold only under the monotonicity hypothesis, for the reason above.
- "A higher tenability gives a strictly smaller distance" is not claimed. The ±0.001 m bracket does not guarantee it in general.
- Inputs on which the source computes Infinity or NaN are excluded by preconditions. IEEE Infinity and NaN have no counterpart among the reals:
  - distance 0 in both flux models (negative distances are allowed, as in the source);
  - a tenability threshold of exactly 0 in `FindPointSourceDistance`. The source's quotient χr·Q / (4π·0) is then ±Infinity, or NaN for χr·Q = 0. Negative thresholds are modelled;
  - a flux of 0 or below in `ToleranceTime`. At 0 the source's 1.33 / 0 is Infinity. Below 0 a negative base raised to 1.33 is NaN;
  - a walking speed or timestep of exactly 0 in the table generator. The source's row count is then +Infinity, −Infinity or NaN, according to the signs of the travel distance, the speed and the timestep:
    - at +Infinity the loop never stops;
    - at −Infinity (a negative walk time divided by a zero timestep, say) there are no rows;
    - at NaN, which is 0/0, there are no rows.

    Negative speeds and timesteps are modelled.
- Fed.ComputeFed: a negative flux at a row that is read is excluded by `FluxReady`. The source's `q ** 1.33` is NaN there. A zero flux is modelled: the source's tolerance time is then Infinity and the step adds 0, and `StepDose` returns 0.
- Fed.ComputeFed: a row with no distance is not refused at run time. The refusal lives in the user interface; here it is the precondition `FluxReady`.
- Radiation.GenerateHeatFluxCurve: a step of 0 or below with maxDistance ≥ step is excluded. The source's loop never stops there. With maxDistance < step, both return no points.
- Radiation.PointSourceDecreasing: the point-source lemmas assume χr·Q > 0. For χr·Q ≤ 0 the flux is not decreasing. When χr·Q and the threshold have opposite signs, the source's closed-form distance is the square root of a negative number. That is NaN; in the model `sqrt` is left unconstrained there.
- Geometry.GenerateEntries: every row's distance is at least the lateral distance rounded to 0.01 m (`EntryDistanceBounds`). A row timed exactly at the closest approach carries that rounded value (`EntryAtClosestApproach`). That some row reaches this minimum is not proved in general. Rows are timed on the 0.1 s grid, so none need fall at the closest approach. Rounding can also give the rounded lateral distance at rows near it.
- `RadiationInputs` is mirrored as a datatype. The engine's functions take its fields as separate arguments, as the source does.
- The user interface is not part of this model:
  - React components and charts;
  - table editing;
  - the duplicate row-count logic in the FED section.

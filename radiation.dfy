/** The radiation model: the view factor and emissivity of a radiating
    rectangular panel, the panel and point-source heat-flux formulas, the two
    searches for the distance at which flux falls to the tenability threshold,
    and the sampler that tabulates flux against distance.

    Temperatures are in °C, lengths in m, fluxes in kW/m².
 */
module Radiation {
  import opened Numerics
  import opened Constants
  import opened Types

  /** Centre-of-rectangle view factor between two parallel, aligned planes
      (SFPE Handbook of Fire Protection Engineering, 5th edition).  Its range
      and its decrease with distance rest on properties of `atan` that the
      model does not state; they are hypotheses where needed. */
  function ViewFactor(m: Elementary, width: real, height: real, distance: real): real
    requires m.Valid() && distance != 0.0
  {
    ViewFactorOfRatios(m, width / (2.0 * distance), height / (2.0 * distance))
  }

  /** The view factor in terms of X = width/(2·distance) and Y = height/(2·distance). */
  function ViewFactorOfRatios(m: Elementary, x: real, y: real): real
    requires m.Valid()
  {
    SquareNonNegative(x);
    SquareNonNegative(y);
    SqrtPositive(m, 1.0 + Square(x));
    SqrtPositive(m, 1.0 + Square(y));
    var sx := m.sqrt(1.0 + Square(x));
    var sy := m.sqrt(1.0 + Square(y));
    (2.0 / m.pi) * ((x / sx) * m.atan(y / sx) + (y / sy) * m.atan(x / sy))
  }

  /** The view factor depends on width and height symmetrically. */
  lemma ViewFactorSymmetric(m: Elementary, width: real, height: real, distance: real)
    requires m.Valid() && distance != 0.0
    ensures ViewFactor(m, width, height, distance) == ViewFactor(m, height, width, distance)
  {
  }

  /** The view factor depends only on the panel's size relative to the
      distance: scaling all three lengths leaves it unchanged. */
  lemma ViewFactorScaleInvariant(m: Elementary, width: real, height: real, distance: real, k: real)
    requires m.Valid() && 0.0 < distance && 0.0 < k
    ensures ViewFactor(m, k * width, k * height, k * distance) == ViewFactor(m, width, height, distance)
  {
    var x, y := width / (2.0 * distance), height / (2.0 * distance);
    var kd := k * distance;
    assert (k * width) / (2.0 * kd) == x;
    assert (k * height) / (2.0 * kd) == y;
  }

  /** Flame emissivity 1 - e^(-κ·t), κ the absorption coefficient
      (BS EN 1991-1-2 / BR 187): zero for a flame of no thickness, and
      below one for any thickness. */
  function Emissivity(m: Elementary, flameThickness: real): (r: real)
    requires m.Valid()
    ensures flameThickness == 0.0 ==> r == 0.0
    ensures 0.0 <= flameThickness ==> 0.0 <= r < 1.0
  {
    assert 0.0 < flameThickness ==> m.exp(-AbsorptionCoefficient * flameThickness) < m.exp(0.0);
    1.0 - m.exp(-AbsorptionCoefficient * flameThickness)
  }

  /** A thicker flame emits more. */
  lemma EmissivityIncreasing(m: Elementary, t1: real, t2: real)
    requires m.Valid() && t1 < t2
    ensures Emissivity(m, t1) < Emissivity(m, t2)
  {
    assert -AbsorptionCoefficient * t2 < -AbsorptionCoefficient * t1;
  }

  /** Flux from a rectangular panel: view factor · emissivity · σ · T⁴, with
      T in kelvin and the panel width standing in for the flame thickness. */
  function RectangularPanelHeatFlux(m: Elementary, temperatureC: real, width: real, height: real, distance: real): real
    requires m.Valid() && distance != 0.0
  {
    var phi := ViewFactor(m, width, height, distance);
    var em := Emissivity(m, width);
    var tempK := temperatureC + 273.0;
    phi * em * StefanBoltzmann * FourthPower(tempK)
  }

  /** Emissivity · σ · T⁴: the flux the panel would deliver at view factor one. */
  function PanelIntensity(m: Elementary, temperatureC: real, width: real): real
    requires m.Valid()
  {
    Emissivity(m, width) * (StefanBoltzmann * FourthPower(temperatureC + 273.0))
  }

  /** The panel flux factors into the view factor times an intensity that
      does not depend on the distance, non-negative for a panel of
      non-negative width and positive for a panel of positive width above
      absolute zero. */
  lemma {:induction false} PanelFluxFactors(m: Elementary, temperatureC: real, width: real, height: real, distance: real)
    requires m.Valid() && distance != 0.0 && 0.0 <= width
    ensures RectangularPanelHeatFlux(m, temperatureC, width, height, distance)
         == ViewFactor(m, width, height, distance) * PanelIntensity(m, temperatureC, width)
    ensures 0.0 <= PanelIntensity(m, temperatureC, width)
    ensures 0.0 < width && temperatureC != -273.0 ==> 0.0 < PanelIntensity(m, temperatureC, width)
  {
    var phi := ViewFactor(m, width, height, distance);
    var em := Emissivity(m, width);
    var f := FourthPower(temperatureC + 273.0);
    FourthPowerFacts(temperatureC + 273.0);
    var bb := StefanBoltzmann * f;
    calc {
      RectangularPanelHeatFlux(m, temperatureC, width, height, distance);
      == phi * em * StefanBoltzmann * f;
      == phi * (em * bb);
      == phi * PanelIntensity(m, temperatureC, width);
    }
    assert 0.0 <= em * bb;
    if 0.0 < width && temperatureC != -273.0 {
      EmissivityIncreasing(m, 0.0, width);
      assert 0.0 < em * bb;
    }
  }

  /** The panel flux is positive when the panel has width, sees the target
      and is above absolute zero. */
  lemma {:induction false} PanelFluxPositive(m: Elementary, temperatureC: real, width: real, height: real, distance: real)
    requires m.Valid() && distance != 0.0 && 0.0 < width
    requires 0.0 < ViewFactor(m, width, height, distance) && temperatureC != -273.0
    ensures 0.0 < RectangularPanelHeatFlux(m, temperatureC, width, height, distance)
  {
    PanelFluxFactors(m, temperatureC, width, height, distance);
    var phi := ViewFactor(m, width, height, distance);
    var i := PanelIntensity(m, temperatureC, width);
    assert 0.0 < phi * i;
  }

  /** A panel of zero width radiates nothing: its emissivity is zero. */
  lemma ZeroWidthPanelFlux(m: Elementary, temperatureC: real, height: real, distance: real)
    requires m.Valid() && distance != 0.0
    ensures RectangularPanelHeatFlux(m, temperatureC, 0.0, height, distance) == 0.0
  {
    PanelFluxFactors(m, temperatureC, 0.0, height, distance);
  }

  /** The view factor of a `width` × `height` panel does not grow with distance. */
  ghost predicate ViewFactorNonIncreasing(m: Elementary, width: real, height: real)
    requires m.Valid()
  {
    forall d1, d2 :: 0.0 < d1 <= d2 ==> ViewFactor(m, width, height, d2) <= ViewFactor(m, width, height, d1)
  }

  /** The panel flux does not grow with distance. */
  ghost predicate PanelFluxNonIncreasing(m: Elementary, temperatureC: real, width: real, height: real)
    requires m.Valid()
  {
    forall d1, d2 :: 0.0 < d1 <= d2 ==>
      RectangularPanelHeatFlux(m, temperatureC, width, height, d2) <= RectangularPanelHeatFlux(m, temperatureC, width, height, d1)
  }

  /** A view factor that falls off with distance makes the panel flux fall off
      too: the monotonicity the distance search relies on. */
  lemma {:induction false} PanelFluxMonotone(m: Elementary, temperatureC: real, width: real, height: real)
    requires m.Valid() && 0.0 <= width
    requires ViewFactorNonIncreasing(m, width, height)
    ensures PanelFluxNonIncreasing(m, temperatureC, width, height)
  {
    forall d1, d2 | 0.0 < d1 <= d2
      ensures RectangularPanelHeatFlux(m, temperatureC, width, height, d2) <= RectangularPanelHeatFlux(m, temperatureC, width, height, d1)
    {
      PanelFluxFactors(m, temperatureC, width, height, d1);
      PanelFluxFactors(m, temperatureC, width, height, d2);
      var i := PanelIntensity(m, temperatureC, width);
      var v1, v2 := ViewFactor(m, width, height, d1), ViewFactor(m, width, height, d2);
      var gap := v1 - v2;
      assert 0.0 <= gap * i;
      calc {
        RectangularPanelHeatFlux(m, temperatureC, width, height, d1) - RectangularPanelHeatFlux(m, temperatureC, width, height, d2);
        == v1 * i - v2 * i;
        == gap * i;
        >= 0.0;
      }
    }
  }

  /** 4π·d², the area of the sphere of radius d. */
  function SphereArea(m: Elementary, d: real): real {
    4.0 * m.pi * Square(d)
  }

  lemma SphereAreaPositive(m: Elementary, d: real)
    requires m.Valid() && d != 0.0
    ensures 0.0 < SphereArea(m, d)
  {
    SquarePositive(d);
    var c, s := 4.0 * m.pi, Square(d);
    assert 0.0 < c * s;
  }

  lemma SphereAreaIncreasing(m: Elementary, d1: real, d2: real)
    requires m.Valid() && 0.0 < d1 < d2
    ensures SphereArea(m, d1) < SphereArea(m, d2)
  {
    SquareStrictlyMonotone(d1, d2);
    var c, s1, s2 := 4.0 * m.pi, Square(d1), Square(d2);
    var gap := s2 - s1;
    assert 0.0 < c * gap;
    calc {
      SphereArea(m, d2) - SphereArea(m, d1);
      == c * s2 - c * s1;
      == c * gap;
      > 0.0;
    }
  }

  /** Flux at `distance` from a point source radiating the fraction `chiR`
      of the heat release rate `hrr` evenly over a sphere. */
  function PointSourceHeatFlux(m: Elementary, hrr: real, chiR: real, distance: real): real
    requires m.Valid() && distance != 0.0
  {
    SphereAreaPositive(m, distance);
    (chiR * hrr) / SphereArea(m, distance)
  }

  /** Point-source flux is positive and strictly decreases with distance. */
  lemma {:induction false} PointSourceDecreasing(m: Elementary, hrr: real, chiR: real, d1: real, d2: real)
    requires m.Valid() && 0.0 < chiR * hrr && 0.0 < d1 < d2
    ensures 0.0 < PointSourceHeatFlux(m, hrr, chiR, d2) < PointSourceHeatFlux(m, hrr, chiR, d1)
  {
    SphereAreaPositive(m, d1);
    SphereAreaIncreasing(m, d1, d2);
    var n := chiR * hrr;
    assert 0.0 < n;
    var a1, a2 := SphereArea(m, d1), SphereArea(m, d2);
    assert 0.0 < n / a2 < n / a1;
  }

  /** The inverse-square law: k times as far gives k² times less flux. */
  lemma {:induction false} PointSourceInverseSquare(m: Elementary, hrr: real, chiR: real, distance: real, k: real)
    requires m.Valid() && 0.0 < distance && 0.0 < k
    ensures PointSourceHeatFlux(m, hrr, chiR, k * distance) * Square(k) == PointSourceHeatFlux(m, hrr, chiR, distance)
  {
    SphereAreaPositive(m, distance);
    SquarePositive(k);
    SphereAreaScales(m, distance, k);
    QuotientRescaled(chiR * hrr, SphereArea(m, distance), Square(k));
  }

  /** Scaling the radius by k scales the sphere's area by k². */
  lemma SphereAreaScales(m: Elementary, d: real, k: real)
    ensures SphereArea(m, k * d) == SphereArea(m, d) * Square(k)
  {
    var c := 4.0 * m.pi;
    calc {
      SphereArea(m, k * d);
      == c * ((k * d) * (k * d));
      == (c * (d * d)) * (k * k);
      == SphereArea(m, d) * Square(k);
    }
  }

  /** Dividing by a·s and multiplying back by s is dividing by a. */
  lemma QuotientRescaled(n: real, a: real, s: real)
    requires 0.0 < a && 0.0 < s
    ensures n / (a * s) * s == n / a
  {
    var product := a * s;
    assert 0.0 < product;
    var q := n / product;
    assert q * product == n;
    assert (q * s) * a == n;
  }

  /** Closed-form distance at which point-source flux equals `tenability`:
      the non-negative root of R² = χr·Q / (4π·q). */
  function FindPointSourceDistance(m: Elementary, hrr: real, chiR: real, tenability: real): real
    requires m.Valid() && tenability != 0.0
  {
    m.sqrt(SquaredPointSourceDistance(m, hrr, chiR, tenability))
  }

  /** χr·Q / (4π·q), the square of the closed-form distance. */
  function SquaredPointSourceDistance(m: Elementary, hrr: real, chiR: real, tenability: real): real
    requires m.Valid() && tenability != 0.0
  {
    var c := 4.0 * m.pi;
    assert c * tenability != 0.0;
    (chiR * hrr) / (c * tenability)
  }

  /** The closed-form distance is the positive root of R² = χr·Q / (4π·q). */
  lemma FindPointSourceDistanceSquares(m: Elementary, hrr: real, chiR: real, tenability: real)
    requires m.Valid() && 0.0 < chiR * hrr && 0.0 < tenability
    ensures 0.0 < FindPointSourceDistance(m, hrr, chiR, tenability)
    ensures Square(FindPointSourceDistance(m, hrr, chiR, tenability)) * (4.0 * m.pi * tenability) == chiR * hrr
  {
    var n, c := chiR * hrr, 4.0 * m.pi;
    var ct := c * tenability;
    assert 0.0 < n && 0.0 < ct;
    var v := n / ct;
    assert 0.0 < v && v * ct == n;
    SqrtPositive(m, v);
  }

  /** The flux at the closed-form distance is the tenability threshold itself. */
  lemma {:induction false} PointSourceDistanceRoundTrip(m: Elementary, hrr: real, chiR: real, tenability: real)
    requires m.Valid() && 0.0 < chiR * hrr && 0.0 < tenability
    ensures 0.0 < FindPointSourceDistance(m, hrr, chiR, tenability)
    ensures PointSourceHeatFlux(m, hrr, chiR, FindPointSourceDistance(m, hrr, chiR, tenability)) == tenability
  {
    FindPointSourceDistanceSquares(m, hrr, chiR, tenability);
    var r := FindPointSourceDistance(m, hrr, chiR, tenability);
    var n, c, s := chiR * hrr, 4.0 * m.pi, Square(r);
    assert s * (c * tenability) == n;
    SphereAreaPositive(m, r);
    var a := SphereArea(m, r);
    assert a == c * s;
    assert a * tenability == n;
    assert n / a == tenability;
  }

  /** The closed-form distance recovers the distance a flux was computed at. */
  lemma {:induction false} PointSourceFluxRoundTrip(m: Elementary, hrr: real, chiR: real, distance: real)
    requires m.Valid() && 0.0 < chiR * hrr && 0.0 < distance
    ensures 0.0 < PointSourceHeatFlux(m, hrr, chiR, distance)
    ensures FindPointSourceDistance(m, hrr, chiR, PointSourceHeatFlux(m, hrr, chiR, distance)) == distance
  {
    PointSourceDecreasing(m, hrr, chiR, distance, distance + 1.0);
    SquarePositive(distance);
    var q := PointSourceHeatFlux(m, hrr, chiR, distance);
    var n, c, s := chiR * hrr, 4.0 * m.pi, Square(distance);
    assert q == n / (c * s);
    assert SquaredPointSourceDistance(m, hrr, chiR, q) == s by {
      InverseOfQuotient(n, c, s, q);
    }
    FindPointSourceDistanceOfSquare(m, hrr, chiR, q, distance);
  }

  /** The closed-form distance is `d` when the root's argument is d². */
  lemma FindPointSourceDistanceOfSquare(m: Elementary, hrr: real, chiR: real, tenability: real, d: real)
    requires m.Valid() && 0.0 < tenability && 0.0 <= d
    requires SquaredPointSourceDistance(m, hrr, chiR, tenability) == Square(d)
    ensures FindPointSourceDistance(m, hrr, chiR, tenability) == d
  {
    SqrtOfSquare(m, d);
  }

  /** Solving q = n / (c·s) for s. */
  lemma InverseOfQuotient(n: real, c: real, s: real, q: real)
    requires 0.0 < c && 0.0 < s && 0.0 < q && q == n / (c * s)
    ensures n / (c * q) == s
  {
    var cs, cq := c * s, c * q;
    assert q * cs == n;
    assert cq * s == n;
  }

  /** The closed-form distance is the boundary of the untenable zone: flux is
      at least the threshold exactly at distances up to it. */
  lemma {:induction false} PointSourceDistanceIsBoundary(m: Elementary, hrr: real, chiR: real, tenability: real, d: real)
    requires m.Valid() && 0.0 < chiR * hrr && 0.0 < tenability && 0.0 < d
    ensures tenability <= PointSourceHeatFlux(m, hrr, chiR, d) <==> d <= FindPointSourceDistance(m, hrr, chiR, tenability)
  {
    var r := FindPointSourceDistance(m, hrr, chiR, tenability);
    PointSourceDistanceRoundTrip(m, hrr, chiR, tenability);
    if d < r {
      PointSourceDecreasing(m, hrr, chiR, d, r);
    } else if r < d {
      PointSourceDecreasing(m, hrr, chiR, r, d);
    }
  }

  /** Bisection for the panel's tenable distance on [0.01, 100] m, to a
      bracket of 0.001 m, reported floored to the centimetre.

      The result is 0 exactly when the flux at 0.01 m is already below the
      threshold; otherwise it is a whole number of centimetres in
      [0.01, 99.99].  When the flux does not grow with distance, the flux at
      the result still meets the threshold and every distance 0.011 m or more
      beyond it is below the threshold, unless the search saturated at
      99.99 m, which it does whenever the threshold is met all the way out. */
  method FindRectangularPanelDistance(m: Elementary, temperatureC: real, width: real, height: real, tenability: real)
    returns (r: real)
    requires m.Valid()
    ensures r == 0.0 <==> RectangularPanelHeatFlux(m, temperatureC, width, height, 0.01) < tenability
    ensures r != 0.0 ==> 0.01 <= r <= 99.99 && OnGrid(r, 100.0)
    ensures r != 0.0 && PanelFluxNonIncreasing(m, temperatureC, width, height) ==>
      tenability <= RectangularPanelHeatFlux(m, temperatureC, width, height, r)
    ensures r != 0.0 && PanelFluxNonIncreasing(m, temperatureC, width, height) ==>
      r == 99.99 || forall d :: r + 0.011 <= d ==> RectangularPanelHeatFlux(m, temperatureC, width, height, d) < tenability
    ensures (forall d :: 0.01 <= d < 100.0 ==> tenability <= RectangularPanelHeatFlux(m, temperatureC, width, height, d)) ==>
      r == 99.99
  {
    if RectangularPanelHeatFlux(m, temperatureC, width, height, 0.01) < tenability {
      return 0.0;
    }
    var lo, hi := 0.01, 100.0;
    while hi - lo > 0.001
      invariant 0.01 <= lo < hi <= 100.0
      invariant tenability <= RectangularPanelHeatFlux(m, temperatureC, width, height, lo)
      invariant hi == 100.0 || RectangularPanelHeatFlux(m, temperatureC, width, height, hi) < tenability
      decreases Floor((hi - lo) * 1000.0)
    {
      var mid := (lo + hi) / 2.0;
      HalvingShrinks(hi - lo);
      var flux := RectangularPanelHeatFlux(m, temperatureC, width, height, mid);
      if flux >= tenability {
        lo := mid;
      } else {
        hi := mid;
      }
    }
    r := Floor(lo * 100.0) as real / 100.0;
    assert Floor(r * 100.0) == Floor(lo * 100.0);
    if hi == 100.0 {
      assert 9999.9 <= lo * 100.0 < 10000.0;
      assert r == 99.99;
    }
  }

  /** Halving a bracket wider than 0.001 lowers its width in thousandths. */
  lemma HalvingShrinks(w: real)
    requires 0.001 < w
    ensures 0 <= Floor(w / 2.0 * 1000.0) < Floor(w * 1000.0)
  {
  }

  /** One point of the flux curve: both models' flux at `d`, with `d`
      rounded to the centimetre for display. */
  function CurvePoint(m: Elementary, temperatureC: real, width: real, height: real, hrr: real, chiR: real, d: real): (p: HeatFluxCurvePoint)
    requires m.Valid() && 0.0 < d
    ensures d - 0.005 < p.distance <= d + 0.005
  {
    HeatFluxCurvePoint(
      RoundTo(d, 100.0),
      RectangularPanelHeatFlux(m, temperatureC, width, height, d),
      PointSourceHeatFlux(m, hrr, chiR, d))
  }

  /** The distance of the k-th sample (from 0) of a curve with the given step. */
  function SampleDistance(k: nat, step: real): real {
    (k + 1) as real * step
  }

  /** Consecutive samples are one step apart, and samples grow with their index. */
  lemma SampleDistanceFacts(k: nat, step: real)
    requires 0.0 < step
    ensures SampleDistance(k + 1, step) == SampleDistance(k, step) + step
    ensures step <= SampleDistance(k, step)
  {
    var n := (k + 1) as real;
    assert 1.0 <= n;
    calc {
      SampleDistance(k + 1, step);
      == (n + 1.0) * step;
      == n * step + step;
      == SampleDistance(k, step) + step;
    }
    assert 1.0 * step <= n * step;
  }

  /** Samples further along the curve are at least one step per index further out. */
  lemma {:induction false} SampleDistanceGap(i: nat, j: nat, step: real)
    requires 0.0 < step && i < j
    ensures SampleDistance(i, step) + step <= SampleDistance(j, step)
    decreases j - i
  {
    SampleDistanceFacts(i, step);
    if i + 1 < j {
      SampleDistanceGap(i + 1, j, step);
      SampleDistanceFacts(i + 1, step);
    }
  }

  /** Samples both flux models at `step`, 2·`step`, … up to `maxDistance`.

      The k-th point (from 0) is taken at (k+1)·`step`; every sample lies in
      [`step`, `maxDistance`], the next multiple of `step` lies beyond
      `maxDistance`, there are none when `maxDistance` < `step`, and the
      displayed distances never decrease (they strictly increase when the
      step is at least a centimetre). */
  method GenerateHeatFluxCurve(m: Elementary, temperatureC: real, width: real, height: real, hrr: real, chiR: real,
                               maxDistance: real, step: real := 0.1)
    returns (points: seq<HeatFluxCurvePoint>)
    requires m.Valid() && (0.0 < step || maxDistance < step)
    ensures points == [] <==> maxDistance < step
    ensures maxDistance < SampleDistance(|points|, step)
    ensures forall k: nat :: k < |points| ==>
      step <= SampleDistance(k, step) <= maxDistance &&
      points[k] == CurvePoint(m, temperatureC, width, height, hrr, chiR, SampleDistance(k, step))
    ensures forall i, j :: 0 <= i < j < |points| ==> points[i].distance <= points[j].distance
    ensures 0.01 <= step ==> forall i, j :: 0 <= i < j < |points| ==> points[i].distance < points[j].distance
  {
    points := [];
    var d := step;
    while d <= maxDistance
      invariant d == SampleDistance(|points|, step)
      invariant points == [] || step <= maxDistance
      invariant forall k: nat :: k < |points| ==>
        step <= SampleDistance(k, step) <= maxDistance &&
        points[k] == CurvePoint(m, temperatureC, width, height, hrr, chiR, SampleDistance(k, step))
      decreases if 0.0 < step then Floor(maxDistance / step) - |points| else 0
    {
      SampleDistanceFacts(|points|, step);
      SampleBelowCount(|points|, step, maxDistance);
      points := points + [CurvePoint(m, temperatureC, width, height, hrr, chiR, d)];
      d := d + step;
    }
    if 0.0 < step {
      CurveDistancesOrdered(m, temperatureC, width, height, hrr, chiR, step, points);
    }
  }

  /** Displayed distances of consecutive curve samples never decrease, and
      strictly increase when the step is at least a centimetre. */
  lemma CurveDistancesOrdered(m: Elementary, temperatureC: real, width: real, height: real, hrr: real, chiR: real,
                              step: real, points: seq<HeatFluxCurvePoint>)
    requires m.Valid() && 0.0 < step
    requires forall k: nat :: k < |points| ==>
      points[k] == CurvePoint(m, temperatureC, width, height, hrr, chiR, SampleDistance(k, step))
    ensures forall i, j :: 0 <= i < j < |points| ==> points[i].distance <= points[j].distance
    ensures 0.01 <= step ==> forall i, j :: 0 <= i < j < |points| ==> points[i].distance < points[j].distance
  {
    forall i, j | 0 <= i < j < |points|
      ensures points[i].distance <= points[j].distance
      ensures 0.01 <= step ==> points[i].distance < points[j].distance
    {
      var di, dj := SampleDistance(i, step), SampleDistance(j, step);
      SampleDistanceGap(i, j, step);
      RoundToMonotone(di, dj, 100.0);
      if 0.01 <= step {
        RoundToSeparates(di, dj, 100.0);
      }
    }
  }

  /** A sample within `maxDistance` bounds its count by ⌊maxDistance/step⌋. */
  lemma SampleBelowCount(k: nat, step: real, maxDistance: real)
    requires 0.0 < step && SampleDistance(k, step) <= maxDistance
    ensures k + 1 <= Floor(maxDistance / step)
  {
    var n := (k + 1) as real;
    assert n * step <= maxDistance;
    assert n <= maxDistance / step;
  }
}

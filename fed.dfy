/** Fractional effective dose (FED) from radiant heat, after PD 7974-6.

    Each timestep after the first adds timestep / t_tol(q) to the dose, where
    q is the flux at that row's distance and t_tol(q) = (1.33 / q^1.33) · 60 s
    is the time a person tolerates that flux.
 */
module Fed {
  import opened Numerics
  import opened Types
  import opened Radiation

  /** Tolerance time in seconds for a radiant flux `heatFlux` in kW/m². */
  function ToleranceTime(m: Elementary, heatFlux: real): real
    requires m.Valid() && 0.0 < heatFlux
  {
    (1.33 / m.pow(heatFlux, 1.33)) * 60.0
  }

  /** Tolerance time is positive, and strictly shorter for a stronger flux. */
  lemma {:induction false} ToleranceTimeDecreasing(m: Elementary, q1: real, q2: real)
    requires m.Valid() && 0.0 < q1 < q2
    ensures 0.0 < ToleranceTime(m, q2) < ToleranceTime(m, q1)
  {
    var p1, p2 := m.pow(q1, 1.33), m.pow(q2, 1.33);
    assert 0.0 < p1 < p2;
    assert 0.0 < 1.33 / p2 < 1.33 / p1;
  }

  lemma ToleranceTimePositive(m: Elementary, heatFlux: real)
    requires m.Valid() && 0.0 < heatFlux
    ensures 0.0 < ToleranceTime(m, heatFlux)
  {
    ToleranceTimeDecreasing(m, heatFlux, heatFlux + 1.0);
  }

  /** The dose taken in one timestep at a flux: (1 / t_tol) · timestep.

      At zero flux 0^1.33 is 0, so t_tol is 1.33 / 0 = +Infinity in IEEE
      arithmetic and 1 / t_tol is 0: the step adds nothing. */
  function StepDose(m: Elementary, heatFlux: real, timestep: real): real
    requires m.Valid() && 0.0 <= heatFlux
  {
    if heatFlux == 0.0 then 0.0
    else
      ToleranceTimePositive(m, heatFlux);
      (1.0 / ToleranceTime(m, heatFlux)) * timestep
  }

  /** Over a non-negative timestep the dose is non-negative, and a stronger
      flux gives at least as large a dose. */
  lemma {:induction false} StepDoseMonotone(m: Elementary, q1: real, q2: real, timestep: real)
    requires m.Valid() && 0.0 <= q1 <= q2 && 0.0 <= timestep
    ensures 0.0 <= StepDose(m, q1, timestep) <= StepDose(m, q2, timestep)
  {
    if q1 == 0.0 {
      if q2 != 0.0 && timestep != 0.0 {
        StepDosePositive(m, q2, timestep);
      }
      return;
    }
    ToleranceTimePositive(m, q1);
    ToleranceTimePositive(m, q2);
    var t1, t2 := ToleranceTime(m, q1), ToleranceTime(m, q2);
    if q1 < q2 {
      ToleranceTimeDecreasing(m, q1, q2);
    }
    assert t2 <= t1;
    var r1, r2 := 1.0 / t1, 1.0 / t2;
    assert 0.0 < r1 <= r2;
    var gap := r2 - r1;
    assert 0.0 <= gap * timestep;
    assert 0.0 <= r1 * timestep;
    calc {
      StepDose(m, q2, timestep) - StepDose(m, q1, timestep);
      == r2 * timestep - r1 * timestep;
      == gap * timestep;
    }
  }

  /** Over a positive timestep the dose is positive. */
  lemma StepDosePositive(m: Elementary, heatFlux: real, timestep: real)
    requires m.Valid() && 0.0 < heatFlux && 0.0 < timestep
    ensures 0.0 < StepDose(m, heatFlux, timestep)
  {
    ToleranceTimePositive(m, heatFlux);
    var r := 1.0 / ToleranceTime(m, heatFlux);
    assert 0.0 < r;
    assert 0.0 < r * timestep;
  }

  /** Every row after the first carries a distance at which `flux` is
      defined and not negative; the first row's distance is never read. */
  ghost predicate FluxReady(entries: seq<FedTimestepEntry>, flux: real --> real) {
    forall i :: 1 <= i < |entries| ==>
      && entries[i].distanceToFire.Some?
      && flux.requires(entries[i].distanceToFire.value)
      && 0.0 <= flux(entries[i].distanceToFire.value)
  }

  /** The flux at row `i`. */
  function RowFlux(entries: seq<FedTimestepEntry>, flux: real --> real, i: nat): (q: real)
    requires FluxReady(entries, flux) && 1 <= i < |entries|
    ensures 0.0 <= q
  {
    flux(entries[i].distanceToFire.value)
  }

  /** The cumulative dose after row `i`: zero at row 0, then each row adds
      its step dose. */
  function RunningFed(m: Elementary, entries: seq<FedTimestepEntry>, timestep: real, flux: real --> real, i: nat): real
    requires m.Valid() && FluxReady(entries, flux) && (i == 0 || i < |entries|)
    decreases i
  {
    if i == 0 then 0.0
    else RunningFed(m, entries, timestep, flux, i - 1) + StepDose(m, RowFlux(entries, flux, i), timestep)
  }

  /** The cumulative doses after rows 0 .. n-1. */
  function CumulativeFed(m: Elementary, entries: seq<FedTimestepEntry>, timestep: real, flux: real --> real, n: nat): (c: seq<real>)
    requires m.Valid() && FluxReady(entries, flux) && 1 <= n && (n == 1 || n <= |entries|)
    ensures |c| == n
    decreases n
  {
    if n == 1 then [0.0]
    else
      var previous := CumulativeFed(m, entries, timestep, flux, n - 1);
      previous + [previous[n - 2] + StepDose(m, RowFlux(entries, flux, n - 1), timestep)]
  }

  /** Entry k of the cumulative list is the running dose after row k. */
  lemma {:induction false} CumulativeFedIsRunningFed(m: Elementary, entries: seq<FedTimestepEntry>, timestep: real,
                                                     flux: real --> real, n: nat)
    requires m.Valid() && FluxReady(entries, flux) && 1 <= n && (n == 1 || n <= |entries|)
    ensures forall k :: 0 <= k < n ==> CumulativeFed(m, entries, timestep, flux, n)[k] == RunningFed(m, entries, timestep, flux, k)
    decreases n
  {
    if n > 1 {
      CumulativeFedIsRunningFed(m, entries, timestep, flux, n - 1);
    }
  }

  /** The result of one FED run: the total and the dose after each row. */
  datatype FedRun = FedRun(total: real, cumulative: seq<real>)

  /** Sums the dose over the rows from index 1 on.

      The cumulative list starts at 0 and has one value per row (one value
      when there are no rows at all); each later value adds that row's step
      dose to the one before, and the total is the last value, so it is 0
      when there are fewer than two rows. */
  method ComputeFed(m: Elementary, entries: seq<FedTimestepEntry>, timestep: real, flux: real --> real)
    returns (result: FedRun)
    requires m.Valid() && FluxReady(entries, flux)
    ensures |result.cumulative| == if |entries| == 0 then 1 else |entries|
    ensures result.cumulative[0] == 0.0
    ensures forall i :: 1 <= i < |result.cumulative| ==>
      result.cumulative[i] == result.cumulative[i - 1] + StepDose(m, RowFlux(entries, flux, i), timestep)
    ensures forall i :: 0 <= i < |result.cumulative| ==> result.cumulative[i] == RunningFed(m, entries, timestep, flux, i)
    ensures result.total == result.cumulative[|result.cumulative| - 1]
    ensures |entries| < 2 ==> result.total == 0.0 && result.cumulative == [0.0]
  {
    var sum := 0.0;
    var cumulative := [0.0];
    var i := 1;
    while i < |entries|
      invariant 1 <= i && (i <= |entries| || i == 1)
      invariant cumulative == CumulativeFed(m, entries, timestep, flux, i)
      invariant sum == cumulative[i - 1]
    {
      var distance := entries[i].distanceToFire.value;
      var q := flux(distance);
      sum := sum + StepDose(m, q, timestep);
      cumulative := cumulative + [sum];
      i := i + 1;
    }
    CumulativeFedIsRunningFed(m, entries, timestep, flux, i);
    result := FedRun(sum, cumulative);
  }

  /** With the same flux at every row, the dose after row i is i step doses. */
  lemma {:induction false} ConstantFluxFed(m: Elementary, entries: seq<FedTimestepEntry>, timestep: real,
                                           flux: real --> real, f: real, i: nat)
    requires m.Valid() && FluxReady(entries, flux) && (i == 0 || i < |entries|)
    requires 0.0 <= f && forall k :: 1 <= k < |entries| ==> RowFlux(entries, flux, k) == f
    ensures RunningFed(m, entries, timestep, flux, i) == i as real * StepDose(m, f, timestep)
    decreases i
  {
    if i > 0 {
      ConstantFluxFed(m, entries, timestep, flux, f, i - 1);
      var d := StepDose(m, f, timestep);
      calc {
        RunningFed(m, entries, timestep, flux, i);
        == RunningFed(m, entries, timestep, flux, i - 1) + d;
        == (i - 1) as real * d + d;
        == i as real * d;
      }
    }
  }

  /** Over a non-negative timestep the dose never decreases along the rows. */
  lemma {:induction false} RunningFedNonDecreasing(m: Elementary, entries: seq<FedTimestepEntry>, timestep: real,
                                                   flux: real --> real, i: nat, j: nat)
    requires m.Valid() && FluxReady(entries, flux) && 0.0 <= timestep && i <= j && (j == 0 || j < |entries|)
    ensures RunningFed(m, entries, timestep, flux, i) <= RunningFed(m, entries, timestep, flux, j)
    decreases j - i
  {
    if i < j {
      RunningFedNonDecreasing(m, entries, timestep, flux, i, j - 1);
      var q := RowFlux(entries, flux, j);
      StepDoseMonotone(m, q, q, timestep);
    }
  }

  /** Over a non-negative timestep, a flux that is at least as strong at
      every row gives at least as large a dose. */
  lemma {:induction false} RunningFedMonotoneInFlux(m: Elementary, entries: seq<FedTimestepEntry>, timestep: real,
                                                    weaker: real --> real, stronger: real --> real, i: nat)
    requires m.Valid() && FluxReady(entries, weaker) && FluxReady(entries, stronger)
    requires 0.0 <= timestep && (i == 0 || i < |entries|)
    requires forall k :: 1 <= k < |entries| ==> RowFlux(entries, weaker, k) <= RowFlux(entries, stronger, k)
    ensures RunningFed(m, entries, timestep, weaker, i) <= RunningFed(m, entries, timestep, stronger, i)
    decreases i
  {
    if i > 0 {
      RunningFedMonotoneInFlux(m, entries, timestep, weaker, stronger, i - 1);
      StepDoseMonotone(m, RowFlux(entries, weaker, i), RowFlux(entries, stronger, i), timestep);
    }
  }

  /** The first row is never read: replacing it does not change the dose. */
  lemma {:induction false} RunningFedIgnoresFirstRow(m: Elementary, entries: seq<FedTimestepEntry>, timestep: real,
                                                     flux: real --> real, first: FedTimestepEntry, i: nat)
    requires m.Valid() && FluxReady(entries, flux) && 1 <= |entries| && (i == 0 || i < |entries|)
    ensures FluxReady([first] + entries[1..], flux)
    ensures RunningFed(m, [first] + entries[1..], timestep, flux, i) == RunningFed(m, entries, timestep, flux, i)
    decreases i
  {
    var other := [first] + entries[1..];
    assert forall k :: 1 <= k < |entries| ==> other[k] == entries[k];
    if i > 0 {
      RunningFedIgnoresFirstRow(m, entries, timestep, flux, first, i - 1);
      assert RowFlux(other, flux, i) == RowFlux(entries, flux, i);
    }
  }

  /** The rectangular-panel flux as a function of distance. */
  function PanelFlux(m: Elementary, temperatureC: real, width: real, height: real): real --> real {
    (distance: real) requires m.Valid() && distance != 0.0 =>
      RectangularPanelHeatFlux(m, temperatureC, width, height, distance)
  }

  /** The point-source flux as a function of distance. */
  function PointFlux(m: Elementary, hrr: real, chiR: real): real --> real {
    (distance: real) requires m.Valid() && distance != 0.0 =>
      PointSourceHeatFlux(m, hrr, chiR, distance)
  }

  /** Runs the FED sum once with each flux model over the same rows.

      Both cumulative lists follow `RunningFed` for their model and end at
      their totals, and `times` lists the rows' times in order. */
  method ComputeBothFed(m: Elementary, entries: seq<FedTimestepEntry>, timestep: real,
                        temperatureC: real, width: real, height: real, hrr: real, chiR: real)
    returns (result: FedResult)
    requires m.Valid()
    requires FluxReady(entries, PanelFlux(m, temperatureC, width, height))
    requires FluxReady(entries, PointFlux(m, hrr, chiR))
    ensures |result.times| == |entries|
    ensures forall i :: 0 <= i < |entries| ==> result.times[i] == entries[i].time
    ensures |result.rectangularPanelCumulative| == |result.pointSourceCumulative| == if |entries| == 0 then 1 else |entries|
    ensures forall i :: 0 <= i < |result.rectangularPanelCumulative| ==>
      result.rectangularPanelCumulative[i] == RunningFed(m, entries, timestep, PanelFlux(m, temperatureC, width, height), i)
    ensures forall i :: 0 <= i < |result.pointSourceCumulative| ==>
      result.pointSourceCumulative[i] == RunningFed(m, entries, timestep, PointFlux(m, hrr, chiR), i)
    ensures result.rectangularPanelFed == result.rectangularPanelCumulative[|result.rectangularPanelCumulative| - 1]
    ensures result.pointSourceFed == result.pointSourceCumulative[|result.pointSourceCumulative| - 1]
  {
    var rectResult := ComputeFed(m, entries, timestep, PanelFlux(m, temperatureC, width, height));
    var pointResult := ComputeFed(m, entries, timestep, PointFlux(m, hrr, chiR));
    var times := seq(|entries|, i requires 0 <= i < |entries| => entries[i].time);
    result := FedResult(rectResult.total, pointResult.total, rectResult.cumulative, pointResult.cumulative, times);
  }
}

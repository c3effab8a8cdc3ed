/** Corridor geometry: a person walks along a straight path past a fire.

    The path runs at `lateralDistance` from the fire; the point of closest
    approach lies `passbyOffset` metres along the path from its start, and
    the person walks at `walkingSpeed`.  `GenerateEntries` builds the
    timestep table that the FED integrator reads.
 */
module Geometry {
  import opened Numerics
  import opened Types

  /** The distance from the walker to the fire at `time`:
      √(lateral² + (offset − speed·time)²). */
  function DistanceToFire(m: Elementary, lateralDistance: real, passbyOffset: real, walkingSpeed: real, time: real): real
    requires m.Valid()
  {
    PathDistance(m, lateralDistance, passbyOffset - walkingSpeed * time)
  }

  /** The straight-line distance to the fire from a point `along` metres
      before (or after, when negative) the point of closest approach. */
  function PathDistance(m: Elementary, lateral: real, along: real): (r: real)
    requires m.Valid()
    ensures 0.0 <= r && Square(r) == Square(lateral) + Square(along)
  {
    SquareNonNegative(lateral);
    SquareNonNegative(along);
    m.sqrt(Square(lateral) + Square(along))
  }

  /** The squared distance is lateral² + (offset − speed·time)². */
  lemma DistanceToFireSquared(m: Elementary, lateralDistance: real, passbyOffset: real, walkingSpeed: real, time: real)
    requires m.Valid()
    ensures 0.0 <= DistanceToFire(m, lateralDistance, passbyOffset, walkingSpeed, time)
    ensures Square(DistanceToFire(m, lateralDistance, passbyOffset, walkingSpeed, time))
         == Square(lateralDistance) + Square(passbyOffset - walkingSpeed * time)
  {
    var along := passbyOffset - walkingSpeed * time;
    assert DistanceToFire(m, lateralDistance, passbyOffset, walkingSpeed, time) == PathDistance(m, lateralDistance, along);
  }

  /** The time at which the walker passes the point of closest approach. */
  function ClosestApproachTime(passbyOffset: real, walkingSpeed: real): real
    requires walkingSpeed != 0.0
  {
    passbyOffset / walkingSpeed
  }

  /** At the closest approach the distance is the lateral distance. */
  lemma ClosestApproachDistance(m: Elementary, lateralDistance: real, passbyOffset: real, walkingSpeed: real)
    requires m.Valid() && 0.0 <= lateralDistance && walkingSpeed != 0.0
    ensures DistanceToFire(m, lateralDistance, passbyOffset, walkingSpeed, ClosestApproachTime(passbyOffset, walkingSpeed))
         == lateralDistance
  {
    var tc := ClosestApproachTime(passbyOffset, walkingSpeed);
    assert passbyOffset - walkingSpeed * tc == 0.0;
    DistanceAlong(m, lateralDistance, passbyOffset, walkingSpeed, tc, 0.0);
    var r := DistanceToFire(m, lateralDistance, passbyOffset, walkingSpeed, tc);
    assert Square(r) == Square(lateralDistance) + Square(0.0);
    SquareInjective(r, lateralDistance);
  }

  /** The distance at `time` is the path distance for the walker's offset
      from the closest approach at that time. */
  lemma DistanceAlong(m: Elementary, lateralDistance: real, passbyOffset: real, walkingSpeed: real, time: real, along: real)
    requires m.Valid() && passbyOffset - walkingSpeed * time == along
    ensures DistanceToFire(m, lateralDistance, passbyOffset, walkingSpeed, time) == PathDistance(m, lateralDistance, along)
  {
  }

  /** Three metres off the path and four metres before the closest approach,
      the fire is five metres away. */
  lemma PythagoreanTriple(m: Elementary)
    requires m.Valid()
    ensures DistanceToFire(m, 3.0, 4.0, 1.0, 0.0) == 5.0
  {
    SqrtOfSquare(m, 5.0);
    assert Square(3.0) + Square(4.0) == Square(5.0);
  }

  /** The distance is the same a time `dt` before and after the closest approach. */
  lemma SymmetricAboutClosestApproach(m: Elementary, lateralDistance: real, passbyOffset: real, walkingSpeed: real, dt: real)
    requires m.Valid() && walkingSpeed != 0.0
    ensures
      var tc := ClosestApproachTime(passbyOffset, walkingSpeed);
      DistanceToFire(m, lateralDistance, passbyOffset, walkingSpeed, tc - dt)
        == DistanceToFire(m, lateralDistance, passbyOffset, walkingSpeed, tc + dt)
  {
    var tc := ClosestApproachTime(passbyOffset, walkingSpeed);
    var u := walkingSpeed * dt;
    var before := DistanceToFire(m, lateralDistance, passbyOffset, walkingSpeed, tc - dt);
    var after := DistanceToFire(m, lateralDistance, passbyOffset, walkingSpeed, tc + dt);
    calc {
      before;
      == PathDistance(m, lateralDistance, passbyOffset - walkingSpeed * (tc - dt));
      == { assert passbyOffset - walkingSpeed * (tc - dt) == u; }
         PathDistance(m, lateralDistance, u);
    }
    calc {
      after;
      == PathDistance(m, lateralDistance, passbyOffset - walkingSpeed * (tc + dt));
      == { assert passbyOffset - walkingSpeed * (tc + dt) == -u; }
         PathDistance(m, lateralDistance, -u);
    }
    assert Square(-u) == Square(u);
    SquareInjective(before, after);
  }

  /** The walker is never closer to the fire than the lateral distance, and
      (for a non-negative lateral distance) is exactly that close only at the
      point of closest approach. */
  lemma {:induction false} NeverBelowLateral(m: Elementary, lateralDistance: real, passbyOffset: real, walkingSpeed: real, time: real)
    requires m.Valid()
    ensures lateralDistance <= DistanceToFire(m, lateralDistance, passbyOffset, walkingSpeed, time)
    ensures 0.0 <= lateralDistance ==>
      (DistanceToFire(m, lateralDistance, passbyOffset, walkingSpeed, time) == lateralDistance <==>
       passbyOffset - walkingSpeed * time == 0.0)
  {
    var along := passbyOffset - walkingSpeed * time;
    var r := PathDistance(m, lateralDistance, along);
    assert r == DistanceToFire(m, lateralDistance, passbyOffset, walkingSpeed, time);
    SquareNonNegative(along);
    if 0.0 <= lateralDistance {
      if r < lateralDistance {
        SquareStrictlyMonotone(r, lateralDistance);
      }
      if along != 0.0 {
        SquarePositive(along);
        assert r != lateralDistance;
      } else {
        assert Square(r) == Square(lateralDistance);
        if lateralDistance < r {
          SquareStrictlyMonotone(lateralDistance, r);
        }
      }
    }
  }

  /** The time the walk takes: travel distance / speed. */
  function TotalTime(inputs: FedInputs): real
    requires inputs.walkingSpeed != 0.0
  {
    inputs.totalTravelDistance / inputs.walkingSpeed
  }

  /** Number of timestep rows: ⌈(travel distance / speed) / timestep⌉ + 1,
      or none when that is not positive.  There is a row exactly when the
      walk lasts more than minus one timestep, and then the last row's index
      is the least whole number of timesteps covering the walk. */
  function RowCount(inputs: FedInputs): (n: nat)
    requires inputs.walkingSpeed != 0.0 && inputs.timestep != 0.0
    ensures 1 <= n <==> -1.0 < TotalTime(inputs) / inputs.timestep
    ensures 1 <= n ==>
      TotalTime(inputs) / inputs.timestep <= (n - 1) as real < TotalTime(inputs) / inputs.timestep + 1.0
  {
    var rows := Ceil(TotalTime(inputs) / inputs.timestep) + 1;
    if rows < 0 then 0 else rows
  }

  /** The rows span the walk: the last row's nominal time (row index ·
      timestep) is at or after the end of the walk, and the one before it
      falls short of the end. */
  lemma RowsCoverWalk(inputs: FedInputs)
    requires 0.0 < inputs.walkingSpeed && 0.0 < inputs.timestep && 0.0 <= inputs.totalTravelDistance
    ensures 1 <= RowCount(inputs)
    ensures TotalTime(inputs) <= (RowCount(inputs) - 1) as real * inputs.timestep
    ensures (RowCount(inputs) - 2) as real * inputs.timestep < TotalTime(inputs)
  {
    var totalTime, ts := TotalTime(inputs), inputs.timestep;
    var c := Ceil(totalTime / ts);
    assert 0.0 <= totalTime;
    var q, k := totalTime / ts, (c - 1) as real;
    assert q <= c as real < q + 1.0;
    assert q * ts == totalTime;
    var g := q - k;
    assert 0.0 < g;
    assert 0.0 < g * ts;
    calc {
      totalTime - k * ts;
      == q * ts - k * ts;
      == g * ts;
    }
    assert totalTime <= c as real * ts;
    assert RowCount(inputs) == c + 1;
    assert k * ts < totalTime;
    assert (RowCount(inputs) - 2) as real * ts == k * ts;
    assert (RowCount(inputs) - 2) as real * inputs.timestep < TotalTime(inputs);
  }

  /** `Math.round(i · timestep · 10) / 10`: the time of row `i`, to the
      nearest 0.1 s. */
  function EntryTime(i: nat, timestep: real): (t: real)
    ensures OnGrid(t, 10.0)
    ensures i as real * timestep - 0.05 < t <= i as real * timestep + 0.05
  {
    RoundTo(i as real * timestep, 10.0)
  }

  /** Row `i` of the timestep table. */
  function Entry(m: Elementary, inputs: FedInputs, i: nat): FedTimestepEntry
    requires m.Valid()
  {
    var time := EntryTime(i, inputs.timestep);
    FedTimestepEntry(
      i,
      time,
      Some(RoundTo(DistanceToFire(m, inputs.lateralDistance, inputs.passbyOffset, inputs.walkingSpeed, time), 100.0)))
  }

  /** Builds the timestep table for a walk past the fire.

      It has `RowCount(inputs)` rows; row `i` carries index `i`, the time
      i·timestep rounded to 0.1 s, and the distance to the fire at that
      rounded time, rounded to 0.01 m.  Every row has a distance, none below
      the lateral distance rounded to 0.01 m, and all of them positive when
      the lateral distance is at least 0.005 m; the first row is at time 0. */
  method GenerateEntries(m: Elementary, inputs: FedInputs) returns (entries: seq<FedTimestepEntry>)
    requires m.Valid() && inputs.walkingSpeed != 0.0 && inputs.timestep != 0.0
    ensures |entries| == RowCount(inputs)
    ensures forall i :: 0 <= i < |entries| ==> entries[i] == Entry(m, inputs, i)
    ensures forall i :: 0 <= i < |entries| ==>
      entries[i].index == i && entries[i].distanceToFire.Some? &&
      RoundTo(inputs.lateralDistance, 100.0) <= entries[i].distanceToFire.value
    ensures 0.005 <= inputs.lateralDistance ==> forall i :: 0 <= i < |entries| ==> 0.0 < entries[i].distanceToFire.value
    ensures 1 <= |entries| ==> entries[0].time == 0.0
    ensures 0.0 < inputs.walkingSpeed && 0.0 < inputs.timestep && 0.0 <= inputs.totalTravelDistance ==> 1 <= |entries|
  {
    var totalTime := TotalTime(inputs);
    var rowCount := Ceil(totalTime / inputs.timestep) + 1;
    entries := [];
    var i := 0;
    while i < rowCount
      invariant 0 <= i && |entries| == i
      invariant i <= rowCount || i == 0
      invariant forall k :: 0 <= k < i ==> entries[k] == Entry(m, inputs, k)
    {
      var time := EntryTime(i, inputs.timestep);
      var distance := DistanceToFire(m, inputs.lateralDistance, inputs.passbyOffset, inputs.walkingSpeed, time);
      entries := entries + [FedTimestepEntry(i, time, Some(RoundTo(distance, 100.0)))];
      assert entries[i] == Entry(m, inputs, i);
      i := i + 1;
    }
    TableFacts(m, inputs, entries);
  }

  /** What every table built row by row from `Entry` satisfies. */
  lemma TableFacts(m: Elementary, inputs: FedInputs, entries: seq<FedTimestepEntry>)
    requires m.Valid() && inputs.walkingSpeed != 0.0 && inputs.timestep != 0.0
    requires |entries| == RowCount(inputs)
    requires forall i :: 0 <= i < |entries| ==> entries[i] == Entry(m, inputs, i)
    ensures forall i :: 0 <= i < |entries| ==>
      entries[i].index == i && entries[i].distanceToFire.Some? &&
      RoundTo(inputs.lateralDistance, 100.0) <= entries[i].distanceToFire.value
    ensures 0.005 <= inputs.lateralDistance ==> forall i :: 0 <= i < |entries| ==> 0.0 < entries[i].distanceToFire.value
    ensures 1 <= |entries| ==> entries[0].time == 0.0
    ensures 0.0 < inputs.walkingSpeed && 0.0 < inputs.timestep && 0.0 <= inputs.totalTravelDistance ==> 1 <= |entries|
  {
    forall i | 0 <= i < |entries|
      ensures RoundTo(inputs.lateralDistance, 100.0) <= entries[i].distanceToFire.value
      ensures 0.005 <= inputs.lateralDistance ==> 0.0 < entries[i].distanceToFire.value
    {
      EntryDistanceBounds(m, inputs, i);
    }
    if 1 <= |entries| {
      RoundToZero(10.0);
      assert EntryTime(0, inputs.timestep) == 0.0;
    }
    if 0.0 < inputs.walkingSpeed && 0.0 < inputs.timestep && 0.0 <= inputs.totalTravelDistance {
      RowsCoverWalk(inputs);
    }
  }

  /** A row's distance is no smaller than the lateral distance rounded to
      0.01 m, and positive when the lateral distance is at least 0.005 m. */
  lemma EntryDistanceBounds(m: Elementary, inputs: FedInputs, i: nat)
    requires m.Valid()
    ensures RoundTo(inputs.lateralDistance, 100.0) <= Entry(m, inputs, i).distanceToFire.value
    ensures 0.005 <= inputs.lateralDistance ==> 0.0 < Entry(m, inputs, i).distanceToFire.value
  {
    var time := EntryTime(i, inputs.timestep);
    var d := DistanceToFire(m, inputs.lateralDistance, inputs.passbyOffset, inputs.walkingSpeed, time);
    NeverBelowLateral(m, inputs.lateralDistance, inputs.passbyOffset, inputs.walkingSpeed, time);
    RoundToMonotone(inputs.lateralDistance, d, 100.0);
  }

  /** A row sampled exactly at the closest approach carries the lateral
      distance rounded to 0.01 m, the smallest distance any row can carry. */
  lemma EntryAtClosestApproach(m: Elementary, inputs: FedInputs, i: nat)
    requires m.Valid() && 0.0 <= inputs.lateralDistance && 0.0 < inputs.walkingSpeed
    requires EntryTime(i, inputs.timestep) == ClosestApproachTime(inputs.passbyOffset, inputs.walkingSpeed)
    ensures Entry(m, inputs, i).distanceToFire == Some(RoundTo(inputs.lateralDistance, 100.0))
  {
    ClosestApproachDistance(m, inputs.lateralDistance, inputs.passbyOffset, inputs.walkingSpeed);
  }
}

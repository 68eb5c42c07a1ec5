/** Counting the overnight decisions of a schedule: how the day counter, the
    reported number of driving days and the final arrival time relate to the
    look-back and look-ahead decisions. */
module DayCount {
  import opened Types
  import opened Directions
  import opened RouteOptimizer
  import opened CivilTime
  import opened ScheduleProperties

  /** Look-backs among the first `k` segments. */
  function LookBacks(inp: ScheduleInput, k: nat): nat
    requires k <= |inp.segments|
  {
    if k == 0 then 0 else LookBacks(inp, k - 1) + (if LookBack(inp, k - 1) then 1 else 0)
  }

  /** Look-aheads among the first `k` segments. */
  function LookAheads(inp: ScheduleInput, k: nat): nat
    requires k <= |inp.segments|
  {
    if k == 0 then 0 else LookAheads(inp, k - 1) + (if LookAhead(inp, k - 1) then 1 else 0)
  }

  /** The look-back of segment `i` re-patched a stop that the look-ahead of
      segment `i - 1` had already made an overnight stay. */
  predicate DoubleDecision(inp: ScheduleInput, i: nat)
    requires i < |inp.segments|
  {
    i >= 1 && LookBack(inp, i) && LookAhead(inp, i - 1)
  }

  /** Double decisions among the first `k` segments. */
  function DoubleDecisions(inp: ScheduleInput, k: nat): nat
    requires k <= |inp.segments|
  {
    if k == 0 then 0 else DoubleDecisions(inp, k - 1) + (if DoubleDecision(inp, k - 1) then 1 else 0)
  }

  /** Rest stops emitted among the first `k` segments. */
  function RestStops(inp: ScheduleInput, k: nat): nat
    requires k <= |inp.segments|
  {
    if k == 0 then 0
    else RestStops(inp, k - 1) + (if k < |inp.segments| && !LookAhead(inp, k - 1) then 1 else 0)
  }

  lemma CountOvernightAppend(s: seq<OptimizedStop>, x: OptimizedStop)
    ensures CountOvernight(s + [x]) == CountOvernight(s) + (if x.isOvernight then 1 else 0)
  {
    assert (s + [x])[..|s|] == s;
  }

  /** After `k` segments, the day counter has counted every decision, while
      the overnight flags have counted a re-patched stop once. */
  lemma {:induction false} CountsAfter(inp: ScheduleInput, k: nat)
    requires k <= |inp.segments|
    ensures StateAfter(inp, k).day == 1 + LookBacks(inp, k) + LookAheads(inp, k)
    ensures CountOvernight(StateAfter(inp, k).stops) + DoubleDecisions(inp, k)
            == LookBacks(inp, k) + LookAheads(inp, k)
    ensures Emitted(inp, k).isOvernight <==> k >= 1 && LookAhead(inp, k - 1)
    decreases k
  {
    if k == 0 {
      assert StateAfter(inp, 0).stops == [Origin(inp)];
      assert CountOvernight([Origin(inp)]) == CountOvernight([]) + 0;
    } else {
      var i := k - 1;
      CountsAfter(inp, i);
      EmittedNext(inp, i);
      StateTracksLastStop(inp, i);
      StateTracksLastStop(inp, k);
      var st := StateAfter(inp, i);
      var mid := ApplyLookBack(st, Duration(inp, i), inp.maxDrivingSeconds);
      assert StateAfter(inp, k) == Arrive(inp, mid, i);
      var pushed := StateAfter(inp, k).stops[k];
      assert StateAfter(inp, k).stops == mid.stops + [pushed];
      CountOvernightAppend(mid.stops, pushed);
      var front := st.stops[..i];
      assert st.stops == front + [st.stops[i]];
      CountOvernightAppend(front, st.stops[i]);
      if LookBack(inp, i) {
        assert mid.stops == front + [Patch(st.stops[i])];
        CountOvernightAppend(front, Patch(st.stops[i]));
      }
    }
  }

  /** `drivingDays` counts overnight stops plus one, while the day counter
      counts overnight decisions: the last stop's day exceeds `drivingDays` by
      the number of stops that were made overnight twice. */
  lemma LastDayVersusDrivingDays(result: DirectionsResult, waypoints: seq<Waypoint>,
                                 params: OptimizationParams, now: int)
    requires OptimizeRoute(result, waypoints, params, now).Success?
    ensures var route := OptimizeRoute(result, waypoints, params, now).value;
            var inp := ScheduleInputFor(route.segments, waypoints, params, now);
            && route.stops == Schedule(inp)
            && route.stops[|route.stops| - 1].dayNumber == route.drivingDays + DoubleDecisions(inp, |route.segments|)
            && route.drivingDays <= route.stops[|route.stops| - 1].dayNumber
  {
    var route := OptimizeRoute(result, waypoints, params, now).value;
    var inp := ScheduleInputFor(route.segments, waypoints, params, now);
    var n := |route.segments|;
    CountsAfter(inp, n);
    StateTracksLastStop(inp, n);
    FinalStop(inp, n);
  }

  /** The re-patch happens: with an eight-hour budget, a one-hour leg followed
      by a ten-hour leg makes the middle stop overnight twice over, so the trip
      reports two driving days while its last stop is on day 3. */
  lemma DoubleIncrementExample(w0: Waypoint, w1: Waypoint, w2: Waypoint)
    ensures var legs := [DirectionsLeg(Some(1000), Some(3600), None), DirectionsLeg(Some(9000), Some(36000), None)];
            var result := DirectionsResult([DirectionsRoute(Some(legs))]);
            var params := OptimizationParams(8, Some(0), None, 60);
            var r := OptimizeRoute(result, [w0, w1, w2], params, 0);
            && r.Success?
            && r.value.drivingDays == 2
            && |r.value.stops| == 3
            && r.value.stops[2].dayNumber == 3
            && r.value.stops[1].isOvernight
  {
    var legs := [DirectionsLeg(Some(1000), Some(3600), None), DirectionsLeg(Some(9000), Some(36000), None)];
    var result := DirectionsResult([DirectionsRoute(Some(legs))]);
    var params := OptimizationParams(8, Some(0), None, 60);
    var segments := BuildSegments(legs, [w0, w1, w2]);
    var inp := ScheduleInputFor(segments, [w0, w1, w2], params, 0);
    assert segments[0].duration == 3600 && segments[1].duration == 36000;
    var s1 := StateAfter(inp, 1);
    assert s1.day == 2 && s1.driven == 0 && s1.stops[1].isOvernight;
    var s2 := StateAfter(inp, 2);
    assert s2.day == 3;
    assert s2.stops[1].isOvernight && !s2.stops[0].isOvernight && !s2.stops[2].isOvernight;
    assert s2.stops[2].dayNumber == 3;
    assert CountOvernight(s2.stops) == 1 by {
      assert s2.stops[..2][..1] == [s2.stops[0]];
      assert CountOvernight([s2.stops[0]]) == 0 by { assert [s2.stops[0]][..0] == []; }
    }
  }

  /** The clock after `k` segments: departure, plus the driving time so far,
      plus twelve hours per overnight decision, plus the rest stops. */
  lemma {:induction false} ClockAfter(inp: ScheduleInput, k: nat)
    requires k <= |inp.segments|
    ensures Emitted(inp, k).departureTime ==
            inp.departure + SumDuration(inp.segments[..k]) * MsPerSecond
            + (LookBacks(inp, k) + LookAheads(inp, k)) * OvernightMs
            + RestStops(inp, k) * (inp.preferredStopDuration * MsPerMinute)
    decreases k
  {
    if k > 0 {
      var i := k - 1;
      ClockAfter(inp, i);
      ClockStep(inp, i);
      assert inp.segments[..k][..i] == inp.segments[..i];
      ClockAlgebra(Emitted(inp, i).departureTime, inp.departure, SumDuration(inp.segments[..i]), Duration(inp, i),
                   LookBacks(inp, i) + LookAheads(inp, i),
                   (if LookBack(inp, i) then 1 else 0) + (if LookAhead(inp, i) then 1 else 0),
                   RestStops(inp, i), if i + 1 < |inp.segments| && !LookAhead(inp, i) then 1 else 0,
                   inp.preferredStopDuration * MsPerMinute);
    }
  }

  lemma ClockAlgebra(prev: int, dep: int, sum: int, d: int, nights: int, extra: int, rest: int, more: int, p: int)
    requires prev == dep + sum * MsPerSecond + nights * OvernightMs + rest * p
    ensures prev + d * MsPerSecond + extra * OvernightMs + more * p
            == dep + (sum + d) * MsPerSecond + (nights + extra) * OvernightMs + (rest + more) * p
  {
    assert (rest + more) * p == rest * p + more * p;
  }

  /** What processing segment `i` adds to the departure clock. */
  lemma ClockStep(inp: ScheduleInput, i: nat)
    requires i < |inp.segments|
    ensures Emitted(inp, i + 1).departureTime == Emitted(inp, i).departureTime
            + Duration(inp, i) * MsPerSecond
            + ((if LookBack(inp, i) then 1 else 0) + (if LookAhead(inp, i) then 1 else 0)) * OvernightMs
            + (if i + 1 < |inp.segments| && !LookAhead(inp, i) then 1 else 0) * (inp.preferredStopDuration * MsPerMinute)
  {
    EmittedNext(inp, i);
  }

  /** The arrival at the destination against the advisory estimate: the
      estimate with one overnight stay per overnight decision is exact up to
      the rest stops. */
  lemma DestinationArrival(inp: ScheduleInput)
    ensures var n := |inp.segments|;
            Schedule(inp)[n].arrivalTime ==
            CalculateArrivalTime(inp.departure, SumDuration(inp.segments), LookBacks(inp, n) + LookAheads(inp, n))
            + RestStops(inp, n) * (inp.preferredStopDuration * MsPerMinute)
  {
    var n := |inp.segments|;
    ClockAfter(inp, n);
    FinalStop(inp, n);
    assert inp.segments[..n] == inp.segments;
    if n > 0 {
      EmittedNext(inp, n - 1);
    }
  }

  /** For a whole route: estimating the arrival from `drivingDays - 1`
      overnight stops misses twelve hours per stop made overnight twice and
      all rest stops. */
  lemma EstimateFromDrivingDays(result: DirectionsResult, waypoints: seq<Waypoint>,
                                params: OptimizationParams, now: int)
    requires OptimizeRoute(result, waypoints, params, now).Success?
    ensures var route := OptimizeRoute(result, waypoints, params, now).value;
            var inp := ScheduleInputFor(route.segments, waypoints, params, now);
            var n := |route.segments|;
            route.stops[n].arrivalTime ==
            CalculateArrivalTime(inp.departure, route.totalDuration, route.drivingDays - 1)
            + DoubleDecisions(inp, n) * OvernightMs
            + RestStops(inp, n) * (params.preferredStopDuration * MsPerMinute)
  {
    var route := OptimizeRoute(result, waypoints, params, now).value;
    var inp := ScheduleInputFor(route.segments, waypoints, params, now);
    var n := |route.segments|;
    LastDayVersusDrivingDays(result, waypoints, params, now);
    CountsAfter(inp, n);
    DestinationArrival(inp);
  }
  /** `meetsDeadline` fed with every overnight decision is a necessary test
      only: a schedule whose real arrival at the destination is within the
      deadline always passes it, since rest stops only delay the arrival. */
  lemma OnTimeArrivalMeetsDeadline(inp: ScheduleInput, deadline: int)
    requires inp.preferredStopDuration >= 0
    requires Schedule(inp)[|inp.segments|].arrivalTime <= deadline
    ensures var n := |inp.segments|;
            MeetsDeadline(inp.departure, deadline, SumDuration(inp.segments), LookBacks(inp, n) + LookAheads(inp, n))
  {
    var n := |inp.segments|;
    DestinationArrival(inp);
    assert RestStops(inp, n) * (inp.preferredStopDuration * MsPerMinute) >= 0;
  }

  /** ... and not a sufficient one: two one-hour legs with a one-hour rest
      stop between them pass a two-hour deadline, yet the destination is
      reached after three hours. */
  lemma DeadlineIgnoresRestStops(w0: Waypoint, w1: Waypoint, w2: Waypoint)
    ensures var leg := RouteSegment(Some(w0), Some(w1), 1000, 3600, "");
            var inp := ScheduleInput([w0, w1, w2], [leg, leg.(from := Some(w1), to := Some(w2))], 8 * SecondsPerHour, 0, 60);
            && MeetsDeadline(0, 7_200_000, SumDuration(inp.segments), LookBacks(inp, 2) + LookAheads(inp, 2))
            && Schedule(inp)[2].arrivalTime == 10_800_000
  {
    var leg := RouteSegment(Some(w0), Some(w1), 1000, 3600, "");
    var inp := ScheduleInput([w0, w1, w2], [leg, leg.(from := Some(w1), to := Some(w2))], 8 * SecondsPerHour, 0, 60);
    var s1 := StateAfter(inp, 1);
    assert s1.clock == 7_200_000 && s1.driven == 3600 && s1.day == 1;
    assert !LookBack(inp, 0) && !LookAhead(inp, 0);
    assert !LookBack(inp, 1) && !LookAhead(inp, 1);
    assert StateAfter(inp, 2).stops[2].arrivalTime == 10_800_000;
    assert inp.segments[..1] == [leg];
    assert SumDuration([leg]) == 3600 by { assert [leg][..0] == []; }
    assert SumDuration(inp.segments) == 7200;
    assert LookBacks(inp, 0) == 0 && LookAheads(inp, 0) == 0;
    assert LookBacks(inp, 1) == 0;
    assert LookAheads(inp, 1) == 0;
    assert LookBacks(inp, 2) + LookAheads(inp, 2) == 0;
  }
}

/** The day-splitting scheduler: segments are built from the legs of the first
    route, then one greedy forward pass over them emits one stop per waypoint,
    deciding rest stops and overnight stays against a daily driving budget. */
module RouteOptimizer {
  import opened Types
  import opened Directions
  import opened CivilTime

  const SecondsPerHour := 3600
  /** Minutes an overnight stay lasts (8 pm to 8 am). */
  const OvernightMinutes := 720
  /** One overnight stay in milliseconds. */
  const OvernightMs := 43_200_000

  /** The trip parameters the scheduler reads. `departureTime` falls back to
      the current time, which callers pass in explicitly. */
  datatype OptimizationParams = OptimizationParams(
    maxDrivingHours: int,
    departureTime: Option<int>,
    arrivalDeadline: Option<int>,
    preferredStopDuration: int)

  /** Why `optimizeRoute` throws: no first route, or a first route without a
      leg list (reading `route.legs.map` then throws a TypeError). */
  datatype OptimizeError = NoRouteFound | LegsMissing

  // ---------------------------------------------------------------------------
  // Segment building

  /** The leg's step polylines that are present and non-empty, concatenated. */
  function JoinPolylines(steps: seq<DirectionsStep>): (r: string)
    ensures NoStepPolyline(steps) ==> r == ""
  {
    if |steps| == 0 then ""
    else
      var p := steps[|steps| - 1].polyline;
      JoinPolylines(steps[..|steps| - 1]) + (if p.Some? then p.value else "")
  }

  /** No step carries a non-empty polyline. */
  predicate NoStepPolyline(steps: seq<DirectionsStep>) {
    forall k :: 0 <= k < |steps| ==> steps[k].polyline.None? || steps[k].polyline.value == ""
  }

  function LegPolyline(leg: DirectionsLeg): string {
    if leg.steps.Some? then JoinPolylines(leg.steps.value) else ""
  }

  function BuildSegment(leg: DirectionsLeg, index: int, waypoints: seq<Waypoint>): RouteSegment {
    RouteSegment(
      At(waypoints, index),
      At(waypoints, index + 1),
      ValueOrZero(leg.distance),
      ValueOrZero(leg.duration),
      LegPolyline(leg))
  }

  /** One segment per leg; segment `i` joins waypoint `i` to waypoint `i + 1`,
      so consecutive segments chain and together run from the first waypoint
      to the waypoint after the last leg. */
  function BuildSegments(legs: seq<DirectionsLeg>, waypoints: seq<Waypoint>): (r: seq<RouteSegment>)
    ensures |r| == |legs|
    ensures forall i :: 0 <= i < |legs| ==>
              && r[i].distance == ValueOrZero(legs[i].distance)
              && r[i].duration == ValueOrZero(legs[i].duration)
    ensures forall i :: 0 <= i < |legs| ==> r[i].from == At(waypoints, i) && r[i].to == At(waypoints, i + 1)
    ensures forall i :: 0 <= i < |legs| && (legs[i].steps.None? || NoStepPolyline(legs[i].steps.value)) ==>
              r[i].polyline == ""
  {
    seq(|legs|, i requires 0 <= i < |legs| => BuildSegment(legs[i], i, waypoints))
  }

  /** The total distance of the segments, in metres. */
  function SumDistance(segments: seq<RouteSegment>): int {
    if |segments| == 0 then 0
    else SumDistance(segments[..|segments| - 1]) + segments[|segments| - 1].distance
  }

  /** The total driving time of the segments, in seconds. */
  function SumDuration(segments: seq<RouteSegment>): int {
    if |segments| == 0 then 0
    else SumDuration(segments[..|segments| - 1]) + segments[|segments| - 1].duration
  }

  // ---------------------------------------------------------------------------
  // The scheduler

  /** What the scheduler reads: the waypoints, the segments, the daily budget
      in seconds, the departure instant and the rest-stop length in minutes. */
  datatype ScheduleInput = ScheduleInput(
    waypoints: seq<Waypoint>,
    segments: seq<RouteSegment>,
    maxDrivingSeconds: int,
    departure: int,
    preferredStopDuration: int)

  /** The loop's state: the stops emitted so far, the clock, the day counter
      and the driving seconds accumulated since the last overnight reset. */
  datatype SchedulerState = SchedulerState(
    stops: seq<OptimizedStop>,
    clock: int,
    day: int,
    driven: int)

  /** How the waypoint just reached is treated. */
  datatype StopKind = Destination | Overnight | Rest

  function Duration(inp: ScheduleInput, i: nat): int
    requires i < |inp.segments|
  {
    inp.segments[i].duration
  }

  /** The look-back test: driving segment `duration` now would exceed the budget. */
  predicate LookBackFires(driven: int, duration: int, maxDrivingSeconds: int) {
    driven + duration > maxDrivingSeconds
  }

  /** The look-ahead test at a reached waypoint: the final one ends the trip;
      otherwise the next segment either fits into what is left of today's
      budget (a rest stop) or does not (an overnight stay). */
  function ClassifyArrival(drivenToday: int, next: Option<int>, maxDrivingSeconds: int): StopKind {
    match next
    case None => Destination
    case Some(d) => if d > maxDrivingSeconds - drivenToday then Overnight else Rest
  }

  function KindMinutes(kind: StopKind, preferred: int): int {
    match kind
    case Destination => 0
    case Overnight => OvernightMinutes
    case Rest => preferred
  }

  /** The duration of the segment after segment `i`, if there is one. */
  function NextDuration(inp: ScheduleInput, i: nat): Option<int>
    requires i < |inp.segments|
  {
    if i + 1 < |inp.segments| then Some(inp.segments[i + 1].duration) else None
  }

  /** The origin stop: departs when it arrives, on day 1. */
  function Origin(inp: ScheduleInput): OptimizedStop {
    OptimizedStop(At(inp.waypoints, 0), inp.departure, inp.departure, 0, 1, false, false)
  }

  function Initial(inp: ScheduleInput): SchedulerState {
    SchedulerState([Origin(inp)], inp.departure, 1, 0)
  }

  /** A stop turned into an overnight stay after it was emitted. Its arrival,
      departure and day are left as they were. */
  function Patch(s: OptimizedStop): OptimizedStop {
    s.(isOvernight := true, accommodationNeeded := true, stopDuration := OvernightMinutes)
  }

  /** Step 1 of a segment: if the segment does not fit into today's budget, the
      last emitted stop becomes an overnight stay, the clock moves on by that
      stay, a new day starts and the budget is reset. */
  function ApplyLookBack(st: SchedulerState, duration: int, maxDrivingSeconds: int): SchedulerState
    requires |st.stops| > 0
  {
    if LookBackFires(st.driven, duration, maxDrivingSeconds) then
      var last := |st.stops| - 1;
      SchedulerState(
        st.stops[..last] + [Patch(st.stops[last])],
        st.clock + OvernightMinutes * MsPerMinute,
        st.day + 1,
        0)
    else st
  }

  /** Step 2 of segment `i`: drive it, classify the waypoint reached and emit
      its stop. */
  function Arrive(inp: ScheduleInput, st: SchedulerState, i: nat): SchedulerState
    requires i < |inp.segments|
  {
    var driven := st.driven + Duration(inp, i);
    var arrival := st.clock + Duration(inp, i) * MsPerSecond;
    var kind := ClassifyArrival(driven, NextDuration(inp, i), inp.maxDrivingSeconds);
    var minutes := KindMinutes(kind, inp.preferredStopDuration);
    var overnight := kind == Overnight;
    var day := if overnight then st.day + 1 else st.day;
    var departure := arrival + minutes * MsPerMinute;
    SchedulerState(
      st.stops + [OptimizedStop(At(inp.waypoints, i + 1), arrival, departure, minutes, day, overnight, overnight)],
      departure,
      day,
      if overnight then 0 else driven)
  }

  /** `Arrive` case by case, in the shape of the loop's branches. */
  lemma ArriveCases(inp: ScheduleInput, st: SchedulerState, i: nat)
    requires i < |inp.segments|
    ensures var driven := st.driven + Duration(inp, i);
            var arrival := st.clock + Duration(inp, i) * MsPerSecond;
            var w := At(inp.waypoints, i + 1);
            Arrive(inp, st, i) ==
            if i == |inp.segments| - 1 then
              SchedulerState(st.stops + [OptimizedStop(w, arrival, arrival, 0, st.day, false, false)],
                             arrival, st.day, driven)
            else if inp.segments[i + 1].duration > inp.maxDrivingSeconds - driven then
              var departure := arrival + OvernightMinutes * MsPerMinute;
              SchedulerState(st.stops + [OptimizedStop(w, arrival, departure, OvernightMinutes, st.day + 1, true, true)],
                             departure, st.day + 1, 0)
            else
              var departure := arrival + inp.preferredStopDuration * MsPerMinute;
              SchedulerState(st.stops + [OptimizedStop(w, arrival, departure, inp.preferredStopDuration, st.day, false, false)],
                             departure, st.day, driven)
  {
  }

  function Step(inp: ScheduleInput, st: SchedulerState, i: nat): SchedulerState
    requires i < |inp.segments| && |st.stops| > 0
  {
    Arrive(inp, ApplyLookBack(st, Duration(inp, i), inp.maxDrivingSeconds), i)
  }

  /** The state after the first `k` segments have been processed. */
  function StateAfter(inp: ScheduleInput, k: nat): (st: SchedulerState)
    requires k <= |inp.segments|
    ensures |st.stops| == k + 1
    decreases k
  {
    if k == 0 then Initial(inp) else Step(inp, StateAfter(inp, k - 1), k - 1)
  }

  /** `generateOptimizedStops`: one stop per waypoint position, stop `k` at
      waypoint `k`. */
  function Schedule(inp: ScheduleInput): (stops: seq<OptimizedStop>)
    ensures |stops| == |inp.segments| + 1
  {
    StateAfter(inp, |inp.segments|).stops
  }

  /** The loop of `generateOptimizedStops` as written: a mutable state, the
      last stop replaced in place when the look-back fires. */
  method GenerateOptimizedStops(inp: ScheduleInput) returns (stops: seq<OptimizedStop>)
    ensures stops == Schedule(inp)
  {
    stops := [Origin(inp)];
    var currentTime := inp.departure;
    var dayNumber := 1;
    var accumulated := 0;
    var i := 0;
    while i < |inp.segments|
      invariant 0 <= i <= |inp.segments|
      invariant StateAfter(inp, i) == SchedulerState(stops, currentTime, dayNumber, accumulated)
    {
      ghost var before := SchedulerState(stops, currentTime, dayNumber, accumulated);
      var segmentDuration := inp.segments[i].duration;
      if accumulated + segmentDuration > inp.maxDrivingSeconds {
        var previous := stops[|stops| - 1];
        previous := previous.(isOvernight := true, accommodationNeeded := true, stopDuration := OvernightMinutes);
        stops := stops[..|stops| - 1] + [previous];
        currentTime := currentTime + previous.stopDuration * 60 * 1000;
        dayNumber := dayNumber + 1;
        accumulated := 0;
      }
      ghost var patched := SchedulerState(stops, currentTime, dayNumber, accumulated);
      assert patched == ApplyLookBack(before, segmentDuration, inp.maxDrivingSeconds);
      accumulated := accumulated + segmentDuration;
      currentTime := currentTime + segmentDuration * 1000;
      var arrivalTime := currentTime;
      var stopDuration := 0;
      var isOvernight := false;
      var accommodationNeeded := false;
      if i == |inp.segments| - 1 {
        stopDuration := 0;
        isOvernight := false;
      } else {
        var nextSegment := inp.segments[i + 1];
        var remainingTimeToday := inp.maxDrivingSeconds - accumulated;
        if nextSegment.duration > remainingTimeToday {
          stopDuration := OvernightMinutes;
          isOvernight := true;
          accommodationNeeded := true;
          dayNumber := dayNumber + 1;
          accumulated := 0;
        } else {
          stopDuration := inp.preferredStopDuration;
        }
      }
      var departureTime := arrivalTime + stopDuration * 60 * 1000;
      stops := stops + [OptimizedStop(At(inp.waypoints, i + 1), arrivalTime, departureTime,
                                      stopDuration, dayNumber, isOvernight, accommodationNeeded)];
      currentTime := departureTime;
      ArriveCases(inp, patched, i);
      assert SchedulerState(stops, currentTime, dayNumber, accumulated) == Arrive(inp, patched, i);
      i := i + 1;
    }
  }

  // ---------------------------------------------------------------------------
  // The route as a whole

  /** The number of stops flagged as overnight stays. */
  function CountOvernight(stops: seq<OptimizedStop>): (n: int)
    ensures 0 <= n <= |stops|
  {
    if |stops| == 0 then 0
    else CountOvernight(stops[..|stops| - 1]) + (if stops[|stops| - 1].isOvernight then 1 else 0)
  }

  /** Counting overnight stops distributes over concatenation. */
  lemma {:induction false} CountOvernightConcat(a: seq<OptimizedStop>, b: seq<OptimizedStop>)
    ensures CountOvernight(a + b) == CountOvernight(a) + CountOvernight(b)
    decreases |b|
  {
    if |b| > 0 {
      var b' := b[..|b| - 1];
      assert (a + b)[..|a + b| - 1] == a + b';
      CountOvernightConcat(a, b');
    } else {
      assert a + b == a;
    }
  }

  /** The count is zero exactly when no stop is overnight, and the number of
      stops exactly when every stop is. */
  lemma {:induction false} CountOvernightExtremes(stops: seq<OptimizedStop>)
    ensures CountOvernight(stops) == 0 <==> forall k :: 0 <= k < |stops| ==> !stops[k].isOvernight
    ensures CountOvernight(stops) == |stops| <==> forall k :: 0 <= k < |stops| ==> stops[k].isOvernight
    decreases |stops|
  {
    if |stops| > 0 {
      var front := stops[..|stops| - 1];
      CountOvernightExtremes(front);
      assert forall k :: 0 <= k < |front| ==> front[k] == stops[k];
    }
  }

  /** The scheduler's input for the first route: the budget converted to
      seconds and the departure defaulting to `now`. */
  function ScheduleInputFor(segments: seq<RouteSegment>, waypoints: seq<Waypoint>,
                            params: OptimizationParams, now: int): ScheduleInput
  {
    ScheduleInput(
      waypoints,
      segments,
      params.maxDrivingHours * SecondsPerHour,
      params.departureTime.GetOr(now),
      params.preferredStopDuration)
  }

  /** `optimizeRoute`. The clock read that supplies a missing departure time is
      the parameter `now`. */
  function OptimizeRoute(result: DirectionsResult, waypoints: seq<Waypoint>,
                         params: OptimizationParams, now: int): (r: Result<OptimizedRoute, OptimizeError>)
    ensures |result.routes| == 0 <==> r == Failure(NoRouteFound)
    ensures (|result.routes| > 0 && result.routes[0].legs.None?) <==> r == Failure(LegsMissing)
    ensures r.Success? ==>
              var legs := result.routes[0].legs.value;
              && r.value.segments == BuildSegments(legs, waypoints)
              && |r.value.stops| == |legs| + 1
              && r.value.originalWaypoints == waypoints
              && 1 <= r.value.drivingDays <= |legs| + 1
  {
    if |result.routes| == 0 then Failure(NoRouteFound)
    else if result.routes[0].legs.None? then Failure(LegsMissing)
    else
      var segments := BuildSegments(result.routes[0].legs.value, waypoints);
      var stops := Schedule(ScheduleInputFor(segments, waypoints, params, now));
      Success(OptimizedRoute(
        stops,
        segments,
        SumDistance(segments),
        SumDuration(segments),
        CountOvernight(stops) + 1,
        waypoints))
  }

  // ---------------------------------------------------------------------------
  // Deadline advisory

  /** `calculateArrivalTime`: driving time plus twelve hours per overnight stop. */
  function CalculateArrivalTime(departureTime: int, totalDurationSeconds: int, numOvernightStops: int): int {
    departureTime + totalDurationSeconds * 1000 + numOvernightStops * 12 * 60 * 60 * 1000
  }

  /** `meetsDeadline`: the estimate is at or before the deadline. */
  predicate MeetsDeadline(departureTime: int, arrivalDeadline: int, totalDurationSeconds: int, numOvernightStops: int) {
    CalculateArrivalTime(departureTime, totalDurationSeconds, numOvernightStops) <= arrivalDeadline
  }

  /** Each overnight stop of the estimate is one overnight stay of the
      scheduler, and a later deadline, less driving or fewer overnight stops
      never turn a trip that meets its deadline into one that misses it. */
  lemma DeadlineMonotone(departureTime: int, deadline: int, later: int, seconds: int, fewerSeconds: int,
                         nights: int, fewerNights: int)
    requires MeetsDeadline(departureTime, deadline, seconds, nights)
    requires deadline <= later && fewerSeconds <= seconds && fewerNights <= nights
    ensures CalculateArrivalTime(departureTime, seconds, nights)
            == departureTime + seconds * MsPerSecond + nights * (OvernightMinutes * MsPerMinute)
    ensures MeetsDeadline(departureTime, later, fewerSeconds, fewerNights)
  {
  }
}

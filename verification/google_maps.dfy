/** `getRouteTotals`: the distance and duration of the first route, summed
    over its legs. */
module GoogleMaps {
  import opened Types
  import opened Directions
  import opened RouteOptimizer

  /** What a leg field adds to a total: its value when present and non-zero. */
  function Contribution(v: Option<int>): int {
    if v.Some? && v.value != 0 then v.value else 0
  }

  function LegsDistance(legs: seq<DirectionsLeg>): int {
    if |legs| == 0 then 0 else LegsDistance(legs[..|legs| - 1]) + Contribution(legs[|legs| - 1].distance)
  }

  function LegsDuration(legs: seq<DirectionsLeg>): int {
    if |legs| == 0 then 0 else LegsDuration(legs[..|legs| - 1]) + Contribution(legs[|legs| - 1].duration)
  }

  /** The totals of the first route; `{0, 0}` when there is no first route or
      it has no leg list. Later routes are never read. */
  method GetRouteTotals(result: DirectionsResult) returns (distance: int, duration: int)
    ensures (|result.routes| == 0 || result.routes[0].legs.None?) ==> distance == 0 && duration == 0
    ensures |result.routes| > 0 && result.routes[0].legs.Some? ==>
              distance == LegsDistance(result.routes[0].legs.value)
              && duration == LegsDuration(result.routes[0].legs.value)
  {
    distance := 0;
    duration := 0;
    if |result.routes| > 0 && result.routes[0].legs.Some? {
      var legs := result.routes[0].legs.value;
      var i := 0;
      while i < |legs|
        invariant 0 <= i <= |legs|
        invariant distance == LegsDistance(legs[..i])
        invariant duration == LegsDuration(legs[..i])
      {
        var leg := legs[i];
        if leg.distance.Some? && leg.distance.value != 0 {
          distance := distance + leg.distance.value;
        }
        if leg.duration.Some? && leg.duration.value != 0 {
          duration := duration + leg.duration.value;
        }
        assert legs[..i + 1][..i] == legs[..i];
        i := i + 1;
      }
      assert legs[..|legs|] == legs;
    }
  }

  /** A missing leg value and a zero one both add nothing, so skipping them
      sums the same as reading each as `value || 0`. */
  lemma {:induction false} SkippingMatchesDefaulting(legs: seq<DirectionsLeg>, waypoints: seq<Waypoint>)
    ensures LegsDistance(legs) == SumDistance(BuildSegments(legs, waypoints))
    ensures LegsDuration(legs) == SumDuration(BuildSegments(legs, waypoints))
    decreases |legs|
  {
    if |legs| > 0 {
      var front := legs[..|legs| - 1];
      SkippingMatchesDefaulting(front, waypoints);
      var segs := BuildSegments(legs, waypoints);
      var frontSegs := BuildSegments(front, waypoints);
      assert segs[..|segs| - 1] == frontSegs;
    }
  }

  /** `getRouteTotals` and `optimizeRoute` report the same totals for a
      result that `optimizeRoute` accepts. */
  lemma TotalsAgreeWithOptimizeRoute(result: DirectionsResult, waypoints: seq<Waypoint>,
                                     params: OptimizationParams, now: int)
    requires OptimizeRoute(result, waypoints, params, now).Success?
    ensures var route := OptimizeRoute(result, waypoints, params, now).value;
            route.totalDistance == LegsDistance(result.routes[0].legs.value)
            && route.totalDuration == LegsDuration(result.routes[0].legs.value)
  {
    SkippingMatchesDefaulting(result.routes[0].legs.value, waypoints);
  }
}

/** The part of a routing provider's directions response that the planner
    reads: routes, their legs, and each leg's distance, duration and step
    polylines. Optional members of the response are `Option`s. */
module Directions {
  import opened Types

  /** One step of a leg; `polyline` is the step's encoded path (`polyline.points`). */
  datatype DirectionsStep = DirectionsStep(polyline: Option<string>)

  /** One leg, from one requested waypoint to the next. `distance` is
      `distance.value` in metres and `duration` is `duration.value` in seconds. */
  datatype DirectionsLeg = DirectionsLeg(
    distance: Option<int>,
    duration: Option<int>,
    steps: Option<seq<DirectionsStep>>)

  datatype DirectionsRoute = DirectionsRoute(legs: Option<seq<DirectionsLeg>>)

  datatype DirectionsResult = DirectionsResult(routes: seq<DirectionsRoute>)

  /** A numeric field that may be missing, read with zero as the default: a
      missing value reads as 0, and a present 0 is 0 either way. */
  function ValueOrZero(v: Option<int>): (r: int)
    ensures v.None? ==> r == 0
    ensures v.Some? ==> r == v.value
  {
    v.GetOr(0)
  }
}

/** Record shapes shared by the planner: the waypoint, segment, stop and route
    records of the trip planner, plus the Option/Result wrappers used for the
    source's `undefined` values and thrown errors. */
module Types {

  /** A value that may be absent (`undefined` / `null` in the source). */
  datatype Option<+T> = None | Some(value: T) {
    function GetOr(default: T): T {
      match this
      case Some(v) => v
      case None => default
    }
  }

  /** The outcome of an operation that may throw. */
  datatype Result<+T, +E> = Success(value: T) | Failure(error: E)

  /** JavaScript indexing `s[i]`: `undefined` outside the bounds. */
  function At<T>(s: seq<T>, i: int): (r: Option<T>)
    ensures r.Some? <==> 0 <= i < |s|
    ensures r.Some? ==> r.value == s[i]
  {
    if 0 <= i < |s| then Some(s[i]) else None
  }

  /** A latitude or longitude. The planner never computes with coordinates, so
      a parsed one is kept as the text `parseFloat` was applied to, and the
      placeholder `0` of an ungeocoded place is its own case. */
  datatype Coordinate = ParsedFloat(source: string) | Zero

  datatype Location = Location(lat: Coordinate, lng: Coordinate)

  /** A named point of the trip: origin, intermediate stop or destination. */
  datatype Waypoint = Waypoint(
    name: string,
    location: Location,
    placeId: Option<string>,
    address: Option<string>)

  /** The drive from one waypoint to the next. `distance` is in metres and
      `duration` in seconds; the source's `drivingTime` (duration / 60, a
      fraction) is not kept. `from`/`to` are `None` when the waypoint list is
      shorter than the leg list. */
  datatype RouteSegment = RouteSegment(
    from: Option<Waypoint>,
    to: Option<Waypoint>,
    distance: int,
    duration: int,
    polyline: string)

  /** One entry of the itinerary. Times are milliseconds since the epoch and
      `stopDuration` is in minutes. */
  datatype OptimizedStop = OptimizedStop(
    waypoint: Option<Waypoint>,
    arrivalTime: int,
    departureTime: int,
    stopDuration: int,
    dayNumber: int,
    isOvernight: bool,
    accommodationNeeded: bool)

  datatype OptimizedRoute = OptimizedRoute(
    stops: seq<OptimizedStop>,
    segments: seq<RouteSegment>,
    totalDistance: int,
    totalDuration: int,
    drivingDays: int,
    originalWaypoints: seq<Waypoint>)

  datatype ParsedGoogleMapsLink = ParsedGoogleMapsLink(
    origin: Waypoint,
    destination: Waypoint,
    waypoints: seq<Waypoint>,
    rawUrl: string)
}

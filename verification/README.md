# OpTrip road-trip planner — a Dafny model of its core

OpTrip turns a shared route link into a multi-day driving itinerary. A
directions result provides the legs between consecutive waypoints. From those
legs, a greedy single-pass scheduler does the following:

- splits the trip into driving days against a daily budget (`maxDrivingHours`);
- inserts rest stops of `preferredStopDuration` minutes;
- inserts twelve-hour overnight stays;
- timestamps every stop.

The itinerary can be exported as an iCalendar file, with one VEVENT per stop.

This project models, as pure Dafny functions with proved contracts:

- **the route optimizer** (`lib/route-optimizer.ts`):
  - segment building, the distance and duration totals, and `drivingDays`;
  - `generateOptimizedStops`, both as a state-machine function and as the loop as written;
  - `calculateArrivalTime` and `meetsDeadline`;
- **`getRouteTotals`** (`lib/google-maps.ts`);
- **the link parser** (`lib/link-parser.ts`):
  - the `/dir/` path regular expression, `split("/")` and `filter(Boolean)`;
  - the coordinate-pair pattern, `createWaypointFromString` and `extractWaypointsFromUrl`;
  - `parseGoogleMapsLink`, including its single failure message;
- **the calendar export** (`lib/export-utils.ts`):
  - `formatICSDate` and `pad`;
  - the event classification and the eleven lines of each event;
  - the header and footer, and the `\r\n` join;
  - the file name made by `replace(/\s+/g, "_")`;
  - the `stopsByDay` grouping.

Time values are integer milliseconds since the epoch. To state a round trip for
`formatICSDate`, the model includes a UTC calendar (module `CivilTime`). It
converts time values to date and time fields, as `getUTCFullYear` …
`getUTCSeconds` do, and back, as `Date.UTC` does. It uses the proleptic Gregorian
calendar and is proved bijective and monotone.

Modules and files:

| file | module | content |
|---|---|---|
| `types.dfy` | `Types` | records of `types/index.ts`, `Option`, `Result`, JavaScript indexing |
| `directions.dfy` | `Directions` | the part of a directions result the planner reads |
| `text.dfy` | `Text` | decimal rendering of integers and its inverse, `includes` |
| `route_optimizer.dfy` | `RouteOptimizer` | segments, totals, the scheduler, `optimizeRoute`, the deadline advisory |
| `schedule_properties.dfy` | `ScheduleProperties` | per-stop properties of the scheduler |
| `day_count.dfy` | `DayCount` | overnight decisions against day numbers, `drivingDays` and the clock |
| `scenarios.dfy` | `Scenarios` | worked itineraries |
| `google_maps.dfy` | `GoogleMaps` | `getRouteTotals` |
| `link_parser.dfy` | `LinkParser` | link parsing |
| `civil_time.dfy` | `CivilTime` | the UTC calendar |
| `export_utils.dfy` | `ExportUtils` | DATE-TIME text, the calendar file, the file name, the day grouping |
| `calendar_schedule.dfy` | `CalendarSchedule` | how the calendar presents a schedule |

### How the scheduler is described

The scheduler can take two decisions for segment `i`:

- **Look-back** (`ScheduleProperties.LookBack`): segment `i` does not fit into
  what is left of today's budget. The stop emitted just before it is patched into
  an overnight stay.
- **Look-ahead** (`ScheduleProperties.LookAhead`): the segment after `i` will not
  fit. The stop reached by segment `i` is emitted as an overnight stay.

`RouteOptimizer.StateAfter(inp, k)` is the loop state after `k` segments.
`RouteOptimizer.GenerateOptimizedStops` is the loop as written, with the last
stop patched in place, and it is proved equal to that state machine.

### Behaviour worth noting

- **Day numbers.** The day number can rise by two at one stop when both
  overnight decisions fire around it. That happens whenever any leg is
  followed by a leg longer than the whole daily budget: after the look-ahead
  reset, the look-back fires on that leg alone
  (`ScheduleProperties.LookBackOnlyAfterLookAhead`). Then the day number rises
  by two while only one stop is overnight. So the last stop's day can exceed
  `drivingDays` (`DayCount.DoubleIncrementExample`,
  `DayCount.LastDayVersusDrivingDays`).
- **Arrival order.** Arrivals are only non-decreasing: a zero-length leg
  arrives at the moment the previous stop departs
  (`ScheduleProperties.ArrivalsNonDecreasing`).
- **Polylines.** A leg without step polylines gets `""` as its segment
  polyline; there is no fall-back to the route-wide polyline
  (`RouteOptimizer.BuildSegments`).
- **The deadline advisory.** It counts twelve hours per overnight stop and
  ignores rest stops. It is a necessary test, not a sufficient one
  (`DayCount.OnTimeArrivalMeetsDeadline`, `DayCount.DeadlineIgnoresRestStops`).

## Model

| member | source | states |
|---|---|---|
| `RouteOptimizer.BuildSegments` | lib/route-optimizer.ts:27-34 | one segment per leg carrying its distance and duration, a missing value read as 0; segment `i` runs from waypoint `i` to waypoint `i + 1` (absent past the end of the list), so consecutive segments chain; a leg without steps, or whose steps carry no non-empty polyline, gets the polyline `""` |
| `RouteOptimizer.StateAfter` | lib/route-optimizer.ts:88-158 | after `k` segments exactly `k + 1` stops have been emitted |
| `RouteOptimizer.Schedule` | lib/route-optimizer.ts:63-161 | one stop per waypoint position; the stops themselves are described by the `ScheduleProperties` lemmas |
| `RouteOptimizer.GenerateOptimizedStops` | lib/route-optimizer.ts:63-161 | the mutable loop, patching the last stop in place, returns exactly the stops of the state-machine description |
| `RouteOptimizer.CountOvernight` | lib/route-optimizer.ts:48 | the overnight count lies between zero and the number of stops |
| `RouteOptimizer.CountOvernightConcat` | lib/route-optimizer.ts:48 | the count of overnight stops of two itineraries put together is the sum of their counts |
| `RouteOptimizer.CountOvernightExtremes` | lib/route-optimizer.ts:48 | the count is zero exactly when no stop is overnight, and equals the number of stops exactly when every stop is |
| `RouteOptimizer.OptimizeRoute` | lib/route-optimizer.ts:13-58 | fails with "No route found" exactly when there is no route, and with a TypeError exactly when the first route has no legs; otherwise the segments come from the first route's legs, there is one stop per leg plus one, the waypoints are kept, and `drivingDays` is at least 1 and at most the number of legs plus 1 |
| `RouteOptimizer.CalculateArrivalTime` | lib/route-optimizer.ts:226-235 | no contract of its own; see `RouteOptimizer.DeadlineMonotone` and `DayCount.DestinationArrival` |
| `RouteOptimizer.MeetsDeadline` | lib/route-optimizer.ts:240-253 | no contract of its own; see `RouteOptimizer.DeadlineMonotone`, `DayCount.OnTimeArrivalMeetsDeadline` and `DayCount.DeadlineIgnoresRestStops` |
| `RouteOptimizer.DeadlineMonotone` | lib/route-optimizer.ts:226-253 | the estimate adds one overnight stay of 720 minutes per overnight stop; a later deadline, less driving or fewer overnight stops keep a met deadline met |
| `ScheduleProperties.StateTracksLastStop` | lib/route-optimizer.ts:145-157 | the loop's clock and day counter always equal the departure and the day of the last emitted stop |
| `ScheduleProperties.EmittedNext` | lib/route-optimizer.ts:93-155 | the stop emitted for segment `i`: arrives after the previous departure, plus an overnight stay if the look-back fired, plus the drive; its day rises once per decision; it is overnight exactly when the look-ahead fired |
| `ScheduleProperties.Stable` | lib/route-optimizer.ts:93-108 | a stop changes at most once after it is emitted, when the next segment is processed, and never after that |
| `ScheduleProperties.FinalStop` | lib/route-optimizer.ts:95-100 | each returned stop is the stop as emitted, patched into an overnight stay exactly when the look-back fired on the segment leaving it |
| `ScheduleProperties.DrivenAfterStep` | lib/route-optimizer.ts:107-138 | the driving time carried to the next segment is reset by a look-ahead overnight stay and otherwise accumulates since the last reset |
| `ScheduleProperties.ScheduleShape` | lib/route-optimizer.ts:69-155 | one stop per waypoint position, stop `k` at waypoint `k`; the origin arrives and departs at the departure time, on day 1 |
| `ScheduleProperties.LastStopIsPlainArrival` | lib/route-optimizer.ts:122-126 | the destination has no dwell, is not overnight and needs no accommodation |
| `ScheduleProperties.OvernightDecisions` | lib/route-optimizer.ts:93-143 | a stop is overnight if and only if the look-back fired on the segment leaving it or the look-ahead fired on the segment reaching it |
| `ScheduleProperties.StopDurations` | lib/route-optimizer.ts:97-141 | accommodation is needed exactly at overnight stops; overnight stops last 720 minutes, other interior stops the preferred duration, and the two ends zero |
| `ScheduleProperties.PatchKeepsClock` | lib/route-optimizer.ts:95-103 | a patched stop becomes a 720-minute overnight stay but keeps the arrival, departure and day it was emitted with |
| `ScheduleProperties.ClockChain` | lib/route-optimizer.ts:102-157 | each stop departs its emitted dwell after it arrives; the next arrival is that departure, plus twelve hours after a look-back, plus the drive |
| `ScheduleProperties.DepartsAfterArriving` | lib/route-optimizer.ts:145 | with a non-negative preferred stop length, no stop departs before it arrives |
| `ScheduleProperties.ArrivalsNonDecreasing` | lib/route-optimizer.ts:103-157 | with non-negative leg durations and stop lengths, arrivals never go back in time along the itinerary |
| `ScheduleProperties.BudgetRespected` | lib/route-optimizer.ts:93-111 | right after a segment is added, the driving time since the last reset is within the budget unless that segment alone exceeds it |
| `ScheduleProperties.LookBackOnlyAfterLookAhead` | lib/route-optimizer.ts:93-138 | the look-back fires exactly when the segment alone exceeds the budget and it is the first segment or follows a look-ahead overnight stay |
| `ScheduleProperties.DayNumbers` | lib/route-optimizer.ts:71-137 | day numbers start at 1 and rise by one for each look-back and one for each look-ahead between consecutive stops |
| `ScheduleProperties.DayNumbersNonDecreasing` | lib/route-optimizer.ts:71-155 | day numbers never decrease along the itinerary |
| `DayCount.CountsAfter` | lib/route-optimizer.ts:93-143 | the day counter counts every overnight decision, while the overnight flags miss one for each stop both decisions made overnight |
| `DayCount.LastDayVersusDrivingDays` | lib/route-optimizer.ts:48 | for a whole route, the last stop's day equals `drivingDays` plus the number of doubly-decided stops, so never less than `drivingDays` |
| `DayCount.DoubleIncrementExample` | lib/route-optimizer.ts:93-143 | a one-hour leg followed by a ten-hour leg under an eight-hour budget gives two driving days but a last stop on day 3 |
| `DayCount.ClockAfter` | lib/route-optimizer.ts:102-157 | the clock after `k` segments is the departure plus the driving so far, plus twelve hours per overnight decision, plus the rest stops |
| `DayCount.ClockStep` | lib/route-optimizer.ts:102-157 | processing one segment advances the clock by its drive, twelve hours per decision taken, and a rest stop when neither the destination nor an overnight stay was reached |
| `DayCount.DestinationArrival` | lib/route-optimizer.ts:226-235 | the arrival at the destination equals `calculateArrivalTime` with one overnight stay per decision, plus the rest stops |
| `DayCount.EstimateFromDrivingDays` | lib/route-optimizer.ts:226-235 | estimating from `drivingDays - 1` overnight stops misses twelve hours per doubly-decided stop and all rest stops |
| `DayCount.OnTimeArrivalMeetsDeadline` | lib/route-optimizer.ts:240-253 | a schedule that really arrives by the deadline passes `meetsDeadline` |
| `DayCount.DeadlineIgnoresRestStops` | lib/route-optimizer.ts:240-253 | a two-leg trip with a one-hour rest passes a two-hour deadline yet arrives after three hours |
| `Scenarios.OneHourTrip` | lib/route-optimizer.ts:13-161 | one one-hour leg leaving 2024-01-01 08:00 UTC: two stops on day 1, none overnight, arrival at 09:00 UTC |
| `Scenarios.TwoLongLegs` | lib/route-optimizer.ts:129-138 | two six-hour legs: the middle stop is a 720-minute overnight stay on day 2, two driving days |
| `Scenarios.SingleOverlongLeg` | lib/route-optimizer.ts:93-108 | a single ten-hour leg: the origin becomes the overnight stop and the destination is reached on day 2, twelve hours plus the drive after departure |
| `Scenarios.OneDayWithRests` | lib/route-optimizer.ts:139-142 | three one-hour legs with a 45-minute preference: both interior stops are 45-minute rests, nobody overnight, one driving day |
| `Scenarios.OneHourTripStamp` | lib/export-utils.ts:314-326 | 09:00 UTC on 2024-01-01 is written `20240101T090000Z` |
| `GoogleMaps.GetRouteTotals` | lib/google-maps.ts:86-101 | zero totals when there is no first route or it has no legs; otherwise the sums over the first route's legs of their present, non-zero distances and durations |
| `GoogleMaps.SkippingMatchesDefaulting` | lib/google-maps.ts:93-98 | skipping missing and zero values sums the same as reading a missing value as zero, as the built segments do |
| `GoogleMaps.TotalsAgreeWithOptimizeRoute` | lib/route-optimizer.ts:36-38 | `optimizeRoute` and `getRouteTotals` report the same totals for every result `optimizeRoute` accepts |
| `LinkParser.DirCapture` | lib/link-parser.ts:78-79 | no contract of its own; see `LinkParser.DirCaptureShape` |
| `LinkParser.FindDir` | lib/link-parser.ts:78 | the match position found is where `/dir/` followed by a non-slash starts, and no earlier position matches |
| `LinkParser.DirCaptureShape` | lib/link-parser.ts:78-79 | the path pattern fails exactly when no position matches; otherwise the capture starts right after the leftmost `/dir/`, has no empty segment, and stops at a `/` followed by `/` or by the end |
| `LinkParser.Split` | lib/link-parser.ts:80 | `split` yields at least one piece and no piece contains the separator |
| `LinkParser.SplitJoin` | lib/link-parser.ts:80 | joining the pieces of `split` with the separator gives the string back |
| `LinkParser.NonEmpty` | lib/link-parser.ts:80 | `filter(Boolean)` keeps only non-empty strings |
| `LinkParser.NonEmptyConcat` | lib/link-parser.ts:80 | filtering a concatenation is concatenating the filtered parts, so the kept strings stay in order |
| `LinkParser.NonEmptyKeepsOthers` | lib/link-parser.ts:80 | every non-empty string is kept as often as it occurs, and only the empty ones are dropped |
| `LinkParser.PathLocationsAreSegments` | lib/link-parser.ts:78-80 | a matched path yields at least one location; the locations are non-empty, slash-free, and join back into the capture |
| `LinkParser.CoordinateParts` | lib/link-parser.ts:87 | a coordinate pair is its two texts joined by a comma |
| `LinkParser.CoordinatePairIff` | lib/link-parser.ts:87 | the coordinate pattern matches exactly two non-empty runs of `[-\d.]` joined by one comma |
| `LinkParser.CreateWaypointFromString` | lib/link-parser.ts:137-159 | the address is always the input; a coordinate pair takes the default name and its parsed coordinates; anything else is named by the input with placeholder coordinates 0, 0 |
| `LinkParser.PathWaypoints` | lib/link-parser.ts:82-109 | succeeds exactly when every location decodes; then location `j` becomes waypoint `j`, named `Point j+1` when it is a coordinate pair |
| `LinkParser.QueryGet` | lib/link-parser.ts:113-115 | a parameter is found exactly when some entry has that name, and then the value is that of the first entry with that name |
| `LinkParser.ExtractWaypointsFromUrl` | lib/link-parser.ts:74-132 | no contract of its own; see `LinkParser.WaypointSources` and `LinkParser.DataParameterIgnored` |
| `LinkParser.WaypointSources` | lib/link-parser.ts:74-132 | a matching path alone decides the waypoints; otherwise non-empty `saddr` and `daddr` give exactly an origin and a destination, and nothing else gives none |
| `LinkParser.DataParameterIgnored` | lib/link-parser.ts:124-129 | adding a `data` parameter changes nothing |
| `LinkParser.FullUrl` | lib/link-parser.ts:12-18 | only links containing `maps.app.goo.gl` are expanded, and a failed expansion keeps the original link |
| `LinkParser.LongLinksNotExpanded` | lib/link-parser.ts:14-18 | for a link without the short-link host, the result does not depend on the expansion service |
| `LinkParser.ParseGoogleMapsLink` | lib/link-parser.ts:7-44 | succeeds exactly when the URL parses, decoding succeeds and at least two waypoints are found; then origin, intermediate waypoints and destination reassemble all waypoints in order and the raw link is kept; every failure carries the one generic message |
| `CivilTime.MillisRoundTrip` | lib/export-utils.ts:317-323 | the UTC fields of any time value form a valid date and time, and `Date.UTC` of them gives the time value back |
| `CivilTime.ToMillisRoundTrip` | lib/export-utils.ts:317-323 | the UTC fields of `Date.UTC` of a valid date and time are those fields |
| `CivilTime.CivilRoundTrip` | lib/export-utils.ts:317-319 | the calendar date of a day number is a valid Gregorian date whose day number is that day number |
| `CivilTime.FromMillisMonotone` | lib/export-utils.ts:279-280 | a later time value never reads as an earlier date and time |
| `CivilTime.ToMillisIncreasing` | lib/export-utils.ts:279-280 | an earlier valid date and time has the smaller time value |
| `Text.NatToStringRoundTrip` | lib/export-utils.ts:315 | reading back the decimal digits of a number gives the number |
| `ExportUtils.Pad` | lib/export-utils.ts:315 | no contract of its own; see `ExportUtils.PadTwoDigits` |
| `ExportUtils.FormatICSDate` | lib/export-utils.ts:314-326 | no contract of its own; see `ExportUtils.FormatICSDateRoundTrip` and `ExportUtils.ShortYearNotPadded` |
| `ExportUtils.PadTwoDigits` | lib/export-utils.ts:315 | `pad` of 0 to 99 is exactly two digits that read back as the value |
| `ExportUtils.WholeSeconds` | lib/export-utils.ts:314-326 | dropping the milliseconds of a time value's fields gives the time value truncated to the second |
| `ExportUtils.FieldsTextRoundTrip` | lib/export-utils.ts:316-325 | the text of valid fields with a four-digit year is 16 characters with `T` and `Z` in place, and parses back to the fields without milliseconds |
| `ExportUtils.FormatICSDateRoundTrip` | lib/export-utils.ts:314-326 | for a four-digit year, `formatICSDate` gives `YYYYMMDDTHHMMSSZ`, which reads back as the same instant truncated to the second |
| `ExportUtils.ShortYearNotPadded` | lib/export-utils.ts:317 | years below 1000 give a value shorter than 16 characters, because the year is not padded |
| `ExportUtils.StopWaypoints` | lib/export-utils.ts:254-290 | succeeds exactly when every stop has a waypoint, listing them in order; otherwise names the first stop without one |
| `ExportUtils.Events` | lib/export-utils.ts:254-295 | succeeds exactly when every stop has a waypoint, with one event per stop; the event content is stated by `ExportUtils.EventContent` and `ExportUtils.EventTimesOrdered` |
| `ExportUtils.EventContent` | lib/export-utils.ts:254-290 | event `i` is titled by stop `i`'s place in the itinerary and its waypoint's name; LOCATION is the address when there is a non-empty one and otherwise the name; the description gains the address line exactly when there is such an address |
| `ExportUtils.UidDeterminesIndex` | lib/export-utils.ts:284 | a UID determines the stop index it was built from, whatever the clock reading in it, so events of different stops never share a UID even when the clock is read anew for each event |
| `ExportUtils.EventUidsDistinct` | lib/export-utils.ts:254-295 | no two events of one export have the same UID |
| `ExportUtils.CalendarLines` | lib/export-utils.ts:240-297 | no contract of its own; see `ExportUtils.CalendarStructure` |
| `ExportUtils.CalendarContent` | lib/export-utils.ts:240-297 | no contract of its own; see `ExportUtils.CalendarStructure` |
| `ExportUtils.FrameLayout` | lib/export-utils.ts:244-297 | the file has the 7 header lines, then each event's 11 lines at offset 7 + 11i, then `END:VCALENDAR` |
| `ExportUtils.CalendarStructure` | lib/export-utils.ts:240-297 | the export fails exactly when a stop has no waypoint; otherwise the file has 7 + 11n + 1 lines, starts with the header, ends with `END:VCALENDAR`, and lines 7 + 11i to 7 + 11i + 10 are the event of stop `i` |
| `ExportUtils.EventKinds` | lib/export-utils.ts:255-273 | the first stop starts the trip and the last one arrives, whatever their flags; in between the overnight flag alone chooses overnight or rest |
| `ExportUtils.EventTimesOrdered` | lib/export-utils.ts:279-287 | for four-digit years, DTSTART of event `i` reads back as stop `i`'s arrival and DTEND as its departure, each without milliseconds, so DTEND is never before DTSTART when the stop departs no earlier than it arrives |
| `ExportUtils.CalendarFileName` | lib/export-utils.ts:305 | the file name is a stem without whitespace followed by `.ics` |
| `ExportUtils.ReplaceWhitespaceRuns` | lib/export-utils.ts:305 | the file name stem contains no whitespace |
| `ExportUtils.NoWhitespaceUnchanged` | lib/export-utils.ts:305 | a trip name without whitespace is kept as it is |
| `ExportUtils.RunBecomesUnderscore` | lib/export-utils.ts:305 | each maximal whitespace run becomes exactly one underscore and the text around it is kept |
| `ExportUtils.GroupByDay` | lib/export-utils.ts:12-18 | no contract of its own; see `ExportUtils.GroupsAreDays` |
| `ExportUtils.GroupsAreDays` | lib/export-utils.ts:12-18 | there is a group for exactly the days that occur, and each group holds exactly that day's stops in itinerary order |
| `CalendarSchedule.ScheduleEventKinds` | lib/export-utils.ts:254-273 | for a schedule, the first event starts the trip, the last arrives, an interior one is overnight exactly when the scheduler decided an overnight stay there, and a rest event announces the preferred length |
| `CalendarSchedule.OvernightOriginStillStartsTrip` | lib/export-utils.ts:261-263 | when the first leg alone exceeds the budget, the origin is a 720-minute overnight stop, yet its event is "Start Trip" and starts and ends at the departure; the stay shows only in the next arrival |
| `CalendarSchedule.ScheduleEventTimesOrdered` | lib/export-utils.ts:279-287 | for four-digit years, no event of a schedule has a DTEND that reads back earlier than its DTSTART when the preferred stop length is not negative |

## Left out

- The user interface, the page components, the API routes and all network access are left out. `fetch` for short-link expansion is the parameter `expand`. The JavaScript `URL` constructor is `parseUrl` and `decodeURIComponent` is `decode`. Each is `None` where the original throws or fails.
- Error logging (`console.error` in `parseGoogleMapsLink` and `expandShortUrl`) is left out; it has no effect on the results.
- LinkParser.FullUrl: `expand` returns the expanded link or nothing. A service reply without `expandedUrl` is not modelled separately: the source then hands `undefined` to the URL constructor, which throws, so the link fails with the generic message. The model instead falls back to the original link.
- Calls to the Maps JavaScript API are left out: `loadGoogleMaps`, `calculateRoute`, `findOptimalStopPoints` and `geocodeAddress`. A directions result enters as plain data (`Directions.DirectionsResult`).
- `exportToPDF` is left out, apart from its `stopsByDay` grouping. It renders HTML through locale-dependent formatting and a print window.
- The Blob download and the link click of `exportToCalendar` are left out; the model stops at the file content and the file name. `generateShareLink` (base64 and clipboard) is also left out.
- `new Date()` and `Date.now()` are the parameter `now`. The source reads the clock twice per event (the UID and the DTSTAMP); the model uses the one value `now` for both fields of every event. `ExportUtils.UidDeterminesIndex` is stated for any two clock readings.
- The default trip name `"Road Trip"` of `exportToCalendar` is not modelled: the caller always passes the name.
- Floating point is not modelled:
  - durations, distances and `maxDrivingHours` are integers;
  - `parseFloat` is kept as the text it was applied to (`Types.Coordinate`);
  - the segment field `drivingTime` (duration / 60, a fraction) is not kept.
- `Date` range limits (±8.64e15 ms) and the invalid date are not modelled.
- The order of `Object.entries` over the day groups is not modelled: the grouping is a map.
- `optimizeRoute` is a function of its inputs once the clock is the parameter `now`, so calling it twice with the same inputs gives the same result; no lemma is needed for that.
- ExportUtils.FormatICSDateRoundTrip: stated only for four-digit years. `formatICSDate` does not pad other years, which `ExportUtils.ShortYearNotPadded` states.
- ExportUtils.EventTimesOrdered: stated only for four-digit years, as `ExportUtils.FormatICSDateRoundTrip` is; other years do not give a 16-character value to read back.
- CalendarSchedule.ScheduleEventTimesOrdered: stated only for four-digit years, for the same reason.
- ExportUtils.FormatICSDateRoundTrip: the time value read back is stated as `ToMillis(FromMillis(t).(millis := 0))`, not as `t - t % 1000`. `ExportUtils.WholeSeconds` proves these equal.

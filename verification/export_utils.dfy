/** The itinerary exports that are pure text: the iCalendar DATE-TIME form
    (section 3.3.5 of RFC 5545), the calendar of one VEVENT per stop
    (sections 3.4 and 3.6.1 of RFC 5545), its file name, and the grouping of
    stops by day used for the printable itinerary. */
module ExportUtils {
  import opened Types
  import opened Text
  import opened CivilTime

  // ---------------------------------------------------------------------------
  // DATE-TIME values

  /** `pad`: a leading zero below 10. */
  function Pad(n: int): string {
    if n < 10 then "0" + IntToString(n) else IntToString(n)
  }

  /** Values 0..99 pad to exactly two digits that read back as the value. */
  lemma PadTwoDigits(n: int)
    requires 0 <= n <= 99
    ensures |Pad(n)| == 2 && AllDigits(Pad(n)) && DigitsValue(Pad(n)) == n
  {
    NatToStringRoundTrip(n);
    if n < 10 {
      assert Pad(n) == ['0', DigitChar(n)];
      assert Pad(n)[..1] == "0";
    } else {
      assert |NatToString(n / 10)| == 1;
    }
  }

  /** `formatICSDate`: the UTC year unpadded, then month, day, `T`, hours,
      minutes, seconds, each padded, then `Z`. Milliseconds are dropped. */
  function FormatICSDate(t: int): string {
    FieldsText(FromMillis(t))
  }

  /** The fields of a 16-character `YYYYMMDDTHHMMSSZ` value, milliseconds 0. */
  function ParseFields(s: string): Option<UtcDateTime> {
    if |s| == 16 && s[8] == 'T' && s[15] == 'Z'
       && AllDigits(s[..4]) && AllDigits(s[4..6]) && AllDigits(s[6..8])
       && AllDigits(s[9..11]) && AllDigits(s[11..13]) && AllDigits(s[13..15]) then
      Some(UtcDateTime(
        DigitsValue(s[..4]), DigitsValue(s[4..6]), DigitsValue(s[6..8]),
        DigitsValue(s[9..11]), DigitsValue(s[11..13]), DigitsValue(s[13..15]), 0))
    else None
  }

  /** Reads a 16-character DATE-TIME in UTC form back into a time value. */
  function ParseICSDate(s: string): Option<int> {
    match ParseFields(s)
    case Some(dt) => if Valid(dt) then Some(ToMillis(dt)) else None
    case None => None
  }

  /** Where each field sits in a `YYYYMMDDTHHMMSSZ` value. */
  lemma Layout(y: string, mo: string, d: string, h: string, mi: string, se: string)
    requires |y| == 4 && |mo| == 2 && |d| == 2 && |h| == 2 && |mi| == 2 && |se| == 2
    ensures var s := y + mo + d + "T" + h + mi + se + "Z";
            && |s| == 16 && s[8] == 'T' && s[15] == 'Z'
            && s[..4] == y && s[4..6] == mo && s[6..8] == d
            && s[9..11] == h && s[11..13] == mi && s[13..15] == se
  {
    var s := y + mo + d + "T" + h + mi + se + "Z";
    assert s == (y + mo + d) + "T" + (h + mi + se) + "Z";
  }

  /** The milliseconds field is the time value's remainder modulo 1000. */
  lemma MillisField(t: int)
    ensures FromMillis(t).millis == t % MsPerSecond
  {
    var q := t / MsPerDay;
    var tod := t % MsPerDay;
    DivModUnique(tod, MsPerSecond, tod / MsPerSecond, tod % MsPerSecond);
    DivModUnique(t, MsPerSecond, q * 86400 + tod / MsPerSecond, tod % MsPerSecond);
  }

  /** Parsing a value laid out from digit fields reads those fields. */
  lemma ParseLayout(y: string, mo: string, d: string, h: string, mi: string, se: string)
    requires |y| == 4 && |mo| == 2 && |d| == 2 && |h| == 2 && |mi| == 2 && |se| == 2
    requires AllDigits(y) && AllDigits(mo) && AllDigits(d) && AllDigits(h) && AllDigits(mi) && AllDigits(se)
    ensures ParseFields(y + mo + d + "T" + h + mi + se + "Z")
            == Some(UtcDateTime(DigitsValue(y), DigitsValue(mo), DigitsValue(d),
                                DigitsValue(h), DigitsValue(mi), DigitsValue(se), 0))
  {
    var s := y + mo + d + "T" + h + mi + se + "Z";
    Layout(y, mo, d, h, mi, se);
    ParseSlices(s);
  }

  lemma ParseSlices(s: string)
    requires |s| == 16 && s[8] == 'T' && s[15] == 'Z'
    requires AllDigits(s[..4]) && AllDigits(s[4..6]) && AllDigits(s[6..8])
    requires AllDigits(s[9..11]) && AllDigits(s[11..13]) && AllDigits(s[13..15])
    ensures ParseFields(s) == Some(UtcDateTime(
              DigitsValue(s[..4]), DigitsValue(s[4..6]), DigitsValue(s[6..8]),
              DigitsValue(s[9..11]), DigitsValue(s[11..13]), DigitsValue(s[13..15]), 0))
  {
  }

  /** Dropping the milliseconds of a time value's fields gives the time value
      truncated to the second. */
  lemma WholeSeconds(t: int)
    ensures Valid(FromMillis(t).(millis := 0))
    ensures ToMillis(FromMillis(t).(millis := 0)) == t - t % MsPerSecond
  {
    var f := FromMillis(t);
    MillisRoundTrip(t);
    MillisField(t);
    assert ToMillis(f) == ToMillis(f.(millis := 0)) + f.millis;
  }

  /** The text `formatICSDate` builds from date and time fields with a
      four-digit year. */
  function FieldsText(f: UtcDateTime): string {
    IntToString(f.year) + Pad(f.month) + Pad(f.day) + "T"
    + Pad(f.hours) + Pad(f.minutes) + Pad(f.seconds) + "Z"
  }

  lemma FieldsTextRoundTrip(f: UtcDateTime)
    requires 1000 <= f.year <= 9999 && Valid(f)
    ensures |FieldsText(f)| == 16 && FieldsText(f)[8] == 'T' && FieldsText(f)[15] == 'Z'
    ensures ParseFields(FieldsText(f)) == Some(f.(millis := 0))
  {
    FourDigitLength(f.year);
    NatToStringRoundTrip(f.year);
    PadTwoDigits(f.month);
    PadTwoDigits(f.day);
    PadTwoDigits(f.hours);
    PadTwoDigits(f.minutes);
    PadTwoDigits(f.seconds);
    var y, mo, d, h, mi, se := IntToString(f.year), Pad(f.month), Pad(f.day), Pad(f.hours), Pad(f.minutes), Pad(f.seconds);
    Layout(y, mo, d, h, mi, se);
    ParseLayout(y, mo, d, h, mi, se);
  }

  lemma ParseWholeSeconds(w: UtcDateTime)
    requires 1000 <= w.year <= 9999 && Valid(w) && w.millis == 0
    ensures ParseICSDate(FieldsText(w)) == Some(ToMillis(w))
  {
    FieldsTextRoundTrip(w);
    assert w.(millis := 0) == w;
  }

  /** For a year of four digits the value is 16 characters, `YYYYMMDDTHHMMSSZ`,
      and reading it back gives the time value of the same date and time
      without its milliseconds, which `WholeSeconds` shows is the time value
      truncated to the second. */
  lemma FormatICSDateRoundTrip(t: int)
    requires 1000 <= FromMillis(t).year <= 9999
    ensures |FormatICSDate(t)| == 16
    ensures FormatICSDate(t)[8] == 'T' && FormatICSDate(t)[15] == 'Z'
    ensures ParseICSDate(FormatICSDate(t)) == Some(ToMillis(FromMillis(t).(millis := 0)))
  {
    var whole := FromMillis(t).(millis := 0);
    WholeSeconds(t);
    FieldsTextRoundTrip(whole);
    ParseWholeSeconds(whole);
    assert FormatICSDate(t) == FieldsText(whole);
  }

  /** Years below 1000 are not padded: the value comes out shorter than 16
      characters, and so not in the form RFC 5545 requires. */
  lemma ShortYearNotPadded(t: int)
    requires 0 <= FromMillis(t).year < 1000
    ensures |FormatICSDate(t)| < 16
  {
    var f := FromMillis(t);
    MillisRoundTrip(t);
    ShortNumberLength(f.year);
    PadTwoDigits(f.month);
    PadTwoDigits(f.day);
    PadTwoDigits(f.hours);
    PadTwoDigits(f.minutes);
    PadTwoDigits(f.seconds);
  }

  // ---------------------------------------------------------------------------
  // The calendar

  /** Why the calendar export throws: a stop without a waypoint (reading its
      name is a TypeError). */
  datatype ExportError = StopWithoutWaypoint(index: nat)

  /** The lines before the first event. */
  function CalendarHeader(tripName: string): seq<string> {
    [ "BEGIN:VCALENDAR",
      "VERSION:2.0",
      "PRODID:-//OpTrip//Road Trip Planner//EN",
      "CALSCALE:GREGORIAN",
      "METHOD:PUBLISH",
      "X-WR-CALNAME:" + tripName,
      "X-WR-TIMEZONE:UTC" ]
  }

  /** How an event presents its stop. The position wins over the stop's own
      flags: the first stop starts the trip, the last one ends it. */
  datatype EventKind = StartTrip | ArriveAt | OvernightStop | RestStop

  function EventKindOf(index: nat, count: nat, stop: OptimizedStop): EventKind {
    if index == 0 then StartTrip
    else if index == count - 1 then ArriveAt
    else if stop.isOvernight then OvernightStop
    else RestStop
  }

  function Summary(kind: EventKind, name: string): string {
    match kind
    case StartTrip => "Start Trip: " + name
    case ArriveAt => "Arrive at " + name
    case OvernightStop => "Overnight Stop: " + name
    case RestStop => "Rest Stop: " + name
  }

  /** The description, before any address is appended. */
  function BaseDescription(kind: EventKind, w: Waypoint, stopDuration: int): string {
    match kind
    case StartTrip => "Departure from " + w.name
    case ArriveAt => "Final destination: " + w.name
    case OvernightStop => "Book accommodation at " + w.name
    case RestStop => IntToString(stopDuration) + " minute break at " + w.name
  }

  /** An address a JavaScript `if` accepts: present and non-empty. */
  predicate HasAddress(w: Waypoint) {
    w.address.Some? && w.address.value != ""
  }

  function Description(kind: EventKind, w: Waypoint, stopDuration: int): string {
    BaseDescription(kind, w, stopDuration)
    + (if HasAddress(w) then "\\n\\nAddress: " + w.address.value else "")
  }

  /** The event location: the address when there is a non-empty one,
      otherwise the name. */
  function LocationText(w: Waypoint): string {
    if HasAddress(w) then w.address.value else w.name
  }

  /** The text of one VEVENT, field by field. */
  datatype CalendarEvent = CalendarEvent(
    uid: string, stamp: string, start: string, end: string,
    summary: string, description: string, location: string)

  const UidDomain := "@optrip.app"

  /** The UID of the event for stop `index`, from a clock reading `t`. */
  function Uid(t: int, index: nat): string {
    IntToString(t) + "-" + IntToString(index) + UidDomain
  }

  /** The event for stop `index` of `count`. `now` is the clock reading used
      for the UID and the DTSTAMP. */
  function EventOf(stop: OptimizedStop, w: Waypoint, index: nat, count: nat, now: int): CalendarEvent {
    var kind := EventKindOf(index, count, stop);
    CalendarEvent(
      Uid(now, index),
      FormatICSDate(now),
      FormatICSDate(stop.arrivalTime),
      FormatICSDate(stop.departureTime),
      Summary(kind, w.name),
      Description(kind, w, stop.stopDuration),
      LocationText(w))
  }

  /** The eleven lines of an event. */
  function EventLines(e: CalendarEvent): (lines: seq<string>)
    ensures |lines| == 11
  {
    [ "BEGIN:VEVENT",
      "UID:" + e.uid,
      "DTSTAMP:" + e.stamp,
      "DTSTART:" + e.start,
      "DTEND:" + e.end,
      "SUMMARY:" + e.summary,
      "DESCRIPTION:" + e.description,
      "LOCATION:" + e.location,
      "STATUS:CONFIRMED",
      "SEQUENCE:0",
      "END:VEVENT" ]
  }

  /** Every stop's waypoint, or the first stop without one. */
  function StopWaypoints(stops: seq<OptimizedStop>): (r: Result<seq<Waypoint>, ExportError>)
    ensures r.Success? <==> forall i :: 0 <= i < |stops| ==> stops[i].waypoint.Some?
    ensures r.Success? ==> |r.value| == |stops| && forall i :: 0 <= i < |stops| ==> r.value[i] == stops[i].waypoint.value
    ensures r.Failure? ==>
              && r.error.index < |stops| && stops[r.error.index].waypoint.None?
              && forall i :: 0 <= i < r.error.index ==> stops[i].waypoint.Some?
  {
    if |stops| == 0 then Success([])
    else
      match StopWaypoints(stops[..|stops| - 1])
      case Failure(e) => Failure(e)
      case Success(ws) =>
        var last := stops[|stops| - 1];
        if last.waypoint.None? then Failure(StopWithoutWaypoint(|stops| - 1))
        else Success(ws + [last.waypoint.value])
  }

  /** The events of the stops, in stop order; the first stop without a
      waypoint makes the export fail. */
  function Events(stops: seq<OptimizedStop>, now: int): (r: Result<seq<CalendarEvent>, ExportError>)
    ensures r.Success? <==> forall i :: 0 <= i < |stops| ==> stops[i].waypoint.Some?
    ensures r.Success? ==> |r.value| == |stops|
  {
    match StopWaypoints(stops)
    case Failure(e) => Failure(e)
    case Success(ws) =>
      Success(seq(|stops|, i requires 0 <= i < |stops| => EventOf(stops[i], ws[i], i, |stops|, now)))
  }

  /** A UID determines the stop index it was built from, whatever the clock
      reading was: the index is the run of digits between the last `-` and
      the `@`. */
  lemma UidDeterminesIndex(t1: int, t2: int, i: nat, j: nat)
    ensures Uid(t1, i) == Uid(t2, j) ==> i == j
  {
    if Uid(t1, i) == Uid(t2, j) {
      var a1, a2 := IntToString(t1) + "-" + NatToString(i), IntToString(t2) + "-" + NatToString(j);
      assert Uid(t1, i) == a1 + UidDomain;
      assert Uid(t2, j) == a2 + UidDomain;
      assert a1 == (a1 + UidDomain)[..|a1|];
      assert a2 == (a2 + UidDomain)[..|a2|];
      DigitSuffixUnique(IntToString(t1), NatToString(i), IntToString(t2), NatToString(j));
      NatToStringRoundTrip(i);
      NatToStringRoundTrip(j);
    }
  }

  /** A digit run right after a `-` at the end of a text is determined by the
      text. */
  lemma DigitSuffixUnique(a1: string, d1: string, a2: string, d2: string)
    requires AllDigits(d1) && AllDigits(d2)
    requires a1 + "-" + d1 == a2 + "-" + d2
    ensures d1 == d2
  {
    var v := a1 + "-" + d1;
    LastDash(a1, d1);
    LastDash(a2, d2);
    assert |a1| == |a2|;
    assert d1 == v[|a1| + 1..];
  }

  /** In a text followed by `-` and digits, that `-` is the last one. */
  lemma LastDash(a: string, d: string)
    requires AllDigits(d)
    ensures (a + "-" + d)[|a|] == '-'
    ensures forall k :: |a| < k < |a + "-" + d| ==> (a + "-" + d)[k] != '-'
  {
    forall k | |a| < k < |a + "-" + d| ensures (a + "-" + d)[k] != '-' {
      assert (a + "-" + d)[k] == d[k - |a| - 1];
    }
  }

  /** No two events of one export share a UID. */
  lemma EventUidsDistinct(stops: seq<OptimizedStop>, now: int)
    requires Events(stops, now).Success?
    ensures forall i, j :: 0 <= i < j < |stops| ==> Events(stops, now).value[i].uid != Events(stops, now).value[j].uid
  {
    forall i, j | 0 <= i < j < |stops|
      ensures Events(stops, now).value[i].uid != Events(stops, now).value[j].uid
    {
      UidDeterminesIndex(now, now, i, j);
    }
  }

  /** The blocks one after the other. */
  function Flatten<T>(blocks: seq<seq<T>>): seq<T> {
    if |blocks| == 0 then [] else blocks[0] + Flatten(blocks[1..])
  }

  /** Blocks of eleven lines, framed by a header and a footer, sit at fixed
      offsets. */
  lemma {:induction false} FramedBlocks<T>(header: seq<T>, blocks: seq<seq<T>>, footer: seq<T>)
    requires forall i :: 0 <= i < |blocks| ==> |blocks[i]| == 11
    ensures |header + Flatten(blocks) + footer| == |header| + 11 * |blocks| + |footer|
    ensures forall i :: 0 <= i < |blocks| ==>
              (header + Flatten(blocks) + footer)[|header| + 11 * i..|header| + 11 * i + 11] == blocks[i]
    decreases |blocks|
  {
    if |blocks| > 0 {
      var tail := blocks[1..];
      var h := header + blocks[0];
      FramedBlocks(h, tail, footer);
      assert header + Flatten(blocks) + footer == h + Flatten(tail) + footer;
      forall i | 0 <= i < |blocks|
        ensures (header + Flatten(blocks) + footer)[|header| + 11 * i..|header| + 11 * i + 11] == blocks[i]
      {
        if i > 0 {
          assert blocks[i] == tail[i - 1];
          assert |header| + 11 * i == |h| + 11 * (i - 1);
        }
      }
    }
  }

  /** Each event's lines, in event order. */
  function EventBlocks(events: seq<CalendarEvent>): (blocks: seq<seq<string>>)
    ensures |blocks| == |events| && forall i :: 0 <= i < |events| ==> |blocks[i]| == 11
  {
    seq(|events|, i requires 0 <= i < |events| => EventLines(events[i]))
  }

  /** The lines of `exportToCalendar`'s file. */
  function CalendarLines(stops: seq<OptimizedStop>, tripName: string, now: int): Result<seq<string>, ExportError> {
    match Events(stops, now)
    case Failure(e) => Failure(e)
    case Success(events) => Success(CalendarFrame(tripName, events))
  }

  /** The header, the events' lines and the closing line. */
  function CalendarFrame(tripName: string, events: seq<CalendarEvent>): seq<string> {
    CalendarHeader(tripName) + Flatten(EventBlocks(events)) + ["END:VCALENDAR"]
  }

  /** Where each event's eleven lines sit in the file. */
  lemma FrameLayout(tripName: string, events: seq<CalendarEvent>)
    ensures var lines := CalendarFrame(tripName, events);
            && |lines| == 7 + 11 * |events| + 1
            && lines[..7] == CalendarHeader(tripName)
            && lines[|lines| - 1] == "END:VCALENDAR"
            && forall i :: 0 <= i < |events| ==> lines[7 + 11 * i..7 + 11 * i + 11] == EventBlocks(events)[i]
  {
    var header := CalendarHeader(tripName);
    FramedBlocks(header, EventBlocks(events), ["END:VCALENDAR"]);
    assert |header| == 7;
  }

  /** The lines in order, with a carriage return and line feed between
      consecutive lines and none after the last. */
  function JoinLines(lines: seq<string>): string {
    if |lines| == 0 then ""
    else if |lines| == 1 then lines[0]
    else lines[0] + "\r\n" + JoinLines(lines[1..])
  }

  function CalendarContent(stops: seq<OptimizedStop>, tripName: string, now: int): Result<string, ExportError> {
    match CalendarLines(stops, tripName, now)
    case Failure(e) => Failure(e)
    case Success(lines) => Success(JoinLines(lines))
  }

  /** The calendar is the seven header lines, then exactly one eleven-line
      event per stop in stop order, then `END:VCALENDAR`; it fails exactly
      when some stop has no waypoint. */
  lemma CalendarStructure(stops: seq<OptimizedStop>, tripName: string, now: int)
    ensures CalendarLines(stops, tripName, now).Success? <==>
            forall i :: 0 <= i < |stops| ==> stops[i].waypoint.Some?
    ensures CalendarLines(stops, tripName, now).Success? ==>
              var lines := CalendarLines(stops, tripName, now).value;
              && |lines| == 7 + 11 * |stops| + 1
              && lines[..7] == CalendarHeader(tripName)
              && lines[|lines| - 1] == "END:VCALENDAR"
              && forall i :: 0 <= i < |stops| ==>
                   lines[7 + 11 * i..7 + 11 * i + 11] == EventBlocks(Events(stops, now).value)[i]
  {
    var r := Events(stops, now);
    if r.Success? {
      FrameLayout(tripName, r.value);
    }
  }

  /** Which kind of event a stop gets: the first stop starts the trip and
      the last one arrives, whatever their flags; in between the overnight
      flag decides between an overnight stop and a rest stop. */
  lemma EventKinds(index: nat, count: nat, stop: OptimizedStop)
    ensures EventKindOf(index, count, stop) == StartTrip <==> index == 0
    ensures EventKindOf(index, count, stop) == ArriveAt <==> index != 0 && index == count - 1
    ensures EventKindOf(index, count, stop) == OvernightStop <==>
              index != 0 && index != count - 1 && stop.isOvernight
    ensures EventKindOf(index, count, stop) == RestStop <==>
              index != 0 && index != count - 1 && !stop.isOvernight
  {
  }

  /** Event `i` presents stop `i`: it is titled by the stop's place in the
      itinerary and its waypoint's name, located at the address when there
      is a non-empty one and otherwise at the name, and its description gains
      the address line exactly when there is such an address. */
  lemma EventContent(stops: seq<OptimizedStop>, now: int, i: nat)
    requires Events(stops, now).Success? && i < |stops|
    ensures var w := stops[i].waypoint.value;
            var e := Events(stops, now).value[i];
            var kind := EventKindOf(i, |stops|, stops[i]);
            && e.summary == Summary(kind, w.name)
            && e.location == (if HasAddress(w) then w.address.value else w.name)
            && (HasAddress(w) ==>
                  e.description == BaseDescription(kind, w, stops[i].stopDuration) + "\\n\\nAddress: " + w.address.value)
            && (!HasAddress(w) ==> e.description == BaseDescription(kind, w, stops[i].stopDuration))
  {
  }

  /** DTSTART of event `i` reads back as stop `i`'s arrival and DTEND as its
      departure, each without its milliseconds (`WholeSeconds`: truncated to
      the second); so DTEND is never before DTSTART when the stop departs no
      earlier than it arrives. Stated for four-digit years, the only ones
      `formatICSDate` writes in full. */
  lemma EventTimesOrdered(stops: seq<OptimizedStop>, now: int, i: nat)
    requires Events(stops, now).Success? && i < |stops|
    requires 1000 <= FromMillis(stops[i].arrivalTime).year <= 9999
    requires 1000 <= FromMillis(stops[i].departureTime).year <= 9999
    ensures var e := Events(stops, now).value[i];
            var a, d := stops[i].arrivalTime, stops[i].departureTime;
            && ParseICSDate(e.start) == Some(ToMillis(FromMillis(a).(millis := 0)))
            && ParseICSDate(e.end) == Some(ToMillis(FromMillis(d).(millis := 0)))
            && (a <= d ==> ParseICSDate(e.start).value <= ParseICSDate(e.end).value)
  {
    var a, d := stops[i].arrivalTime, stops[i].departureTime;
    EventTimeTexts(stops, now, i);
    FormatICSDateRoundTrip(a);
    FormatICSDateRoundTrip(d);
    if a <= d {
      WholeSecondsOrdered(a, d);
    }
  }

  /** DTSTART and DTEND of event `i` are the stop's arrival and departure
      in `formatICSDate`'s form. */
  lemma EventTimeTexts(stops: seq<OptimizedStop>, now: int, i: nat)
    requires Events(stops, now).Success? && i < |stops|
    ensures Events(stops, now).value[i].start == FormatICSDate(stops[i].arrivalTime)
    ensures Events(stops, now).value[i].end == FormatICSDate(stops[i].departureTime)
  {
  }

  /** Dropping the milliseconds keeps two time values in order. */
  lemma WholeSecondsOrdered(a: int, d: int)
    requires a <= d
    ensures ToMillis(FromMillis(a).(millis := 0)) <= ToMillis(FromMillis(d).(millis := 0))
  {
    WholeSeconds(a);
    WholeSeconds(d);
    assert a / MsPerSecond <= d / MsPerSecond;
  }

  // ---------------------------------------------------------------------------
  // The file name

  /** A character matched by the pattern `\s`. */
  predicate IsJsWhitespace(c: char) {
    var x := c as int;
    x == 0x09 || x == 0x0A || x == 0x0B || x == 0x0C || x == 0x0D || x == 0x20
    || x == 0xA0 || x == 0x1680 || (0x2000 <= x <= 0x200A) || x == 0x2028 || x == 0x2029
    || x == 0x202F || x == 0x205F || x == 0x3000 || x == 0xFEFF
  }

  predicate NoWhitespace(s: string) {
    forall i :: 0 <= i < |s| ==> !IsJsWhitespace(s[i])
  }

  predicate AllWhitespace(s: string) {
    forall i :: 0 <= i < |s| ==> IsJsWhitespace(s[i])
  }

  /** `s` with its leading whitespace removed. */
  function SkipWhitespace(s: string): (r: string)
    ensures |r| <= |s| && (|r| > 0 ==> !IsJsWhitespace(r[0]))
  {
    if |s| > 0 && IsJsWhitespace(s[0]) then SkipWhitespace(s[1..]) else s
  }

  /** The text with every maximal run of whitespace (in the JavaScript sense
      of `\s`) replaced by a single underscore. */
  function ReplaceWhitespaceRuns(s: string): (r: string)
    ensures NoWhitespace(r)
    decreases |s|
  {
    if |s| == 0 then ""
    else if IsJsWhitespace(s[0]) then "_" + ReplaceWhitespaceRuns(SkipWhitespace(s))
    else [s[0]] + ReplaceWhitespaceRuns(s[1..])
  }

  /** The calendar file name: the trip name with its whitespace runs turned
      into underscores, followed by the `.ics` extension. */
  function CalendarFileName(tripName: string): (r: string)
    ensures |r| >= 4 && r[|r| - 4..] == ".ics" && NoWhitespace(r[..|r| - 4])
  {
    ReplaceWhitespaceRuns(tripName) + ".ics"
  }

  lemma {:induction false} SkipWhitespaceRun(run: string, rest: string)
    requires AllWhitespace(run)
    requires |rest| == 0 || !IsJsWhitespace(rest[0])
    ensures SkipWhitespace(run + rest) == rest
    decreases |run|
  {
    if |run| > 0 {
      assert (run + rest)[1..] == run[1..] + rest;
      SkipWhitespaceRun(run[1..], rest);
    }
  }

  /** Text without whitespace is kept as it is. */
  lemma {:induction false} NoWhitespaceUnchanged(s: string)
    requires NoWhitespace(s)
    ensures ReplaceWhitespaceRuns(s) == s
    decreases |s|
  {
    if |s| > 0 {
      NoWhitespaceUnchanged(s[1..]);
    }
  }

  /** Each maximal whitespace run becomes exactly one underscore, and the
      text around it is kept. */
  lemma {:induction false} RunBecomesUnderscore(word: string, run: string, rest: string)
    requires NoWhitespace(word) && |run| > 0 && AllWhitespace(run)
    requires |rest| == 0 || !IsJsWhitespace(rest[0])
    ensures ReplaceWhitespaceRuns(word + run + rest) == word + "_" + ReplaceWhitespaceRuns(rest)
    decreases |word|
  {
    if |word| == 0 {
      assert word + run + rest == run + rest;
      SkipWhitespaceRun(run, rest);
    } else {
      assert (word + run + rest)[1..] == word[1..] + run + rest;
      RunBecomesUnderscore(word[1..], run, rest);
    }
  }

  // ---------------------------------------------------------------------------
  // Stops grouped by day

  /** The stops of day `d`, in itinerary order. */
  function StopsOnDay(stops: seq<OptimizedStop>, d: int): seq<OptimizedStop> {
    if |stops| == 0 then []
    else StopsOnDay(stops[..|stops| - 1], d) + (if stops[|stops| - 1].dayNumber == d then [stops[|stops| - 1]] else [])
  }

  /** The `stopsByDay` fold: each stop is appended to the group of its day,
      the group created on first use. */
  function GroupByDay(stops: seq<OptimizedStop>): map<int, seq<OptimizedStop>> {
    if |stops| == 0 then map[]
    else
      var groups := GroupByDay(stops[..|stops| - 1]);
      var s := stops[|stops| - 1];
      groups[s.dayNumber := (if s.dayNumber in groups then groups[s.dayNumber] else []) + [s]]
  }

  /** There is a group for exactly the days that occur, and the group of a
      day holds exactly that day's stops in their itinerary order, so every
      stop lands in one group, its own day's. */
  lemma {:induction false} GroupsAreDays(stops: seq<OptimizedStop>)
    ensures forall d :: d in GroupByDay(stops) <==> exists i :: 0 <= i < |stops| && stops[i].dayNumber == d
    ensures forall d :: d in GroupByDay(stops) ==> GroupByDay(stops)[d] == StopsOnDay(stops, d)
    decreases |stops|
  {
    if |stops| > 0 {
      var front := stops[..|stops| - 1];
      GroupsAreDays(front);
      var groups := GroupByDay(stops);
      forall d
        ensures d in groups <==> exists i :: 0 <= i < |stops| && stops[i].dayNumber == d
      {
        if d in GroupByDay(front) {
          var i :| 0 <= i < |front| && front[i].dayNumber == d;
          assert stops[i].dayNumber == d;
        }
        if exists i :: 0 <= i < |stops| && stops[i].dayNumber == d {
          var i :| 0 <= i < |stops| && stops[i].dayNumber == d;
          if i < |front| {
            assert front[i].dayNumber == d;
          }
        }
      }
      forall d | d in groups
        ensures groups[d] == StopsOnDay(stops, d)
      {
        if d !in GroupByDay(front) {
          assert StopsOnDay(front, d) == [] by {
            EmptyWhenAbsent(front, d);
          }
        }
      }
    }
  }

  lemma {:induction false} EmptyWhenAbsent(stops: seq<OptimizedStop>, d: int)
    requires forall i :: 0 <= i < |stops| ==> stops[i].dayNumber != d
    ensures StopsOnDay(stops, d) == []
    decreases |stops|
  {
    if |stops| > 0 {
      EmptyWhenAbsent(stops[..|stops| - 1], d);
    }
  }
}

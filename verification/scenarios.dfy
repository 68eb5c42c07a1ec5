/** Worked itineraries: whole routes run through `optimizeRoute` with an
    eight-hour daily budget, one per kind of day split. */
module Scenarios {
  import opened Types
  import opened Directions
  import opened CivilTime
  import opened RouteOptimizer
  import opened ScheduleProperties
  import opened Text
  import opened ExportUtils

  function Leg(seconds: int): DirectionsLeg {
    DirectionsLeg(Some(1000), Some(seconds), None)
  }

  function OneRoute(legs: seq<DirectionsLeg>): DirectionsResult {
    DirectionsResult([DirectionsRoute(Some(legs))])
  }

  /** 2024-01-01T08:00:00Z. */
  const NewYearEight := 1_704_096_000_000

  /** One one-hour leg: two stops on day 1, the destination reached an hour
      after departure. */
  lemma OneHourTrip(w0: Waypoint, w1: Waypoint)
    ensures var r := OptimizeRoute(OneRoute([Leg(3600)]), [w0, w1], OptimizationParams(8, Some(NewYearEight), None, 0), 0);
            && r.Success?
            && |r.value.stops| == 2
            && r.value.stops[0].dayNumber == 1 && r.value.stops[1].dayNumber == 1
            && !r.value.stops[0].isOvernight && !r.value.stops[1].isOvernight
            && r.value.drivingDays == 1
            && r.value.stops[1].arrivalTime == NewYearEight + 3_600_000
            && FromMillis(r.value.stops[1].arrivalTime) == UtcDateTime(2024, 1, 1, 9, 0, 0, 0)
  {
    var inp := ScheduleInputFor(BuildSegments([Leg(3600)], [w0, w1]), [w0, w1],
                                OptimizationParams(8, Some(NewYearEight), None, 0), 0);
    assert BuildSegments([Leg(3600)], [w0, w1])[0].duration == 3600;
    var s1 := StateAfter(inp, 1);
    assert s1.stops[1].arrivalTime == NewYearEight + 3_600_000;
    assert CountOvernight(s1.stops) == 0 by {
      assert s1.stops[..1] == [s1.stops[0]];
      assert [s1.stops[0]][..0] == [];
    }
    NineOClock();
  }

  /** Two six-hour legs: the second does not fit into the two hours left, so
      the middle stop is an overnight stay on day 2 and the trip takes two
      driving days. */
  lemma TwoLongLegs(w0: Waypoint, w1: Waypoint, w2: Waypoint)
    ensures var r := OptimizeRoute(OneRoute([Leg(21600), Leg(21600)]), [w0, w1, w2],
                                   OptimizationParams(8, Some(0), None, 60), 0);
            && r.Success?
            && |r.value.stops| == 3
            && r.value.stops[1].isOvernight && r.value.stops[1].stopDuration == OvernightMinutes
            && r.value.stops[1].dayNumber == 2 && r.value.stops[2].dayNumber == 2
            && r.value.drivingDays == 2
  {
    var segments := BuildSegments([Leg(21600), Leg(21600)], [w0, w1, w2]);
    var inp := ScheduleInputFor(segments, [w0, w1, w2], OptimizationParams(8, Some(0), None, 60), 0);
    assert segments[0].duration == 21600 && segments[1].duration == 21600;
    var s1 := StateAfter(inp, 1);
    assert s1.day == 2 && s1.driven == 0 && s1.stops[1].isOvernight && !s1.stops[0].isOvernight;
    var s2 := StateAfter(inp, 2);
    assert !s2.stops[2].isOvernight && s2.stops[2].dayNumber == 2;
    assert CountOvernight(s2.stops) == 1 by {
      assert s2.stops[..2][..1] == [s2.stops[0]];
      assert CountOvernight([s2.stops[0]]) == 0 by { assert [s2.stops[0]][..0] == []; }
    }
  }

  /** A single ten-hour leg, longer than the whole budget: the look-back turns
      the origin itself into an overnight stay, and the destination is reached
      on day 2, twelve hours plus the drive after departure. */
  lemma SingleOverlongLeg(w0: Waypoint, w1: Waypoint)
    ensures var r := OptimizeRoute(OneRoute([Leg(36000)]), [w0, w1], OptimizationParams(8, Some(0), None, 60), 0);
            && r.Success?
            && |r.value.stops| == 2
            && r.value.stops[0].isOvernight && r.value.stops[0].stopDuration == OvernightMinutes
            && r.value.stops[0].dayNumber == 1 && r.value.stops[0].departureTime == 0
            && r.value.stops[1].dayNumber == 2 && !r.value.stops[1].isOvernight
            && r.value.stops[1].arrivalTime == OvernightMs + 36_000_000
            && r.value.drivingDays == 2
  {
    var segments := BuildSegments([Leg(36000)], [w0, w1]);
    var inp := ScheduleInputFor(segments, [w0, w1], OptimizationParams(8, Some(0), None, 60), 0);
    assert segments[0].duration == 36000;
    var s1 := StateAfter(inp, 1);
    assert s1.stops[0].isOvernight && !s1.stops[1].isOvernight && s1.stops[1].dayNumber == 2;
    assert CountOvernight(s1.stops) == 1 by {
      assert s1.stops[..1] == [s1.stops[0]];
      assert [s1.stops[0]][..0] == [];
    }
  }

  /** Three one-hour legs within one day and a 45-minute preferred stop: both
      interior stops are 45-minute rest stops and nobody stays overnight. */
  lemma OneDayWithRests(w0: Waypoint, w1: Waypoint, w2: Waypoint, w3: Waypoint)
    ensures var r := OptimizeRoute(OneRoute([Leg(3600), Leg(3600), Leg(3600)]), [w0, w1, w2, w3],
                                   OptimizationParams(8, Some(0), None, 45), 0);
            && r.Success?
            && |r.value.stops| == 4
            && r.value.stops[1].stopDuration == 45 && r.value.stops[2].stopDuration == 45
            && (forall k :: 0 <= k < 4 ==> !r.value.stops[k].isOvernight && r.value.stops[k].dayNumber == 1)
            && r.value.drivingDays == 1
  {
    var segments := BuildSegments([Leg(3600), Leg(3600), Leg(3600)], [w0, w1, w2, w3]);
    var inp := ScheduleInputFor(segments, [w0, w1, w2, w3], OptimizationParams(8, Some(0), None, 45), 0);
    assert segments[0].duration == 3600 && segments[1].duration == 3600 && segments[2].duration == 3600;
    ThreeShortLegs(inp);
    var st := StateAfter(inp, 3).stops;
    CountOvernightExtremes(st);
  }

  /** The schedule of three one-hour legs under an eight-hour budget. */
  lemma ThreeShortLegs(inp: ScheduleInput)
    requires |inp.segments| == 3 && inp.maxDrivingSeconds == 8 * SecondsPerHour && inp.preferredStopDuration == 45
    requires Duration(inp, 0) == 3600 && Duration(inp, 1) == 3600 && Duration(inp, 2) == 3600
    ensures var st := StateAfter(inp, 3).stops;
            && st[1].stopDuration == 45 && st[2].stopDuration == 45
            && forall k :: 0 <= k < 4 ==> !st[k].isOvernight && st[k].dayNumber == 1
  {
    var s1 := StateAfter(inp, 1);
    assert s1.driven == 3600 && s1.day == 1;
    var s2 := StateAfter(inp, 2);
    assert s2.driven == 7200 && s2.day == 1;
  }
  /** The arrival of the one-hour trip as its calendar event shows it. */
  lemma OneHourTripStamp()
    ensures FormatICSDate(NewYearEight + 3_600_000) == "20240101T090000Z"
  {
    NineOClock();
    NineOClockText();
  }

  lemma NineOClock()
    ensures FromMillis(NewYearEight + 3_600_000) == UtcDateTime(2024, 1, 1, 9, 0, 0, 0)
  {
    var t := NewYearEight + 3_600_000;
    DivModUnique(t, MsPerDay, 19723, 32_400_000);
    DivModUnique(19723 + EpochOffset, DaysPerEra, 5, 8706);
    DivModUnique(8706, 36524, 0, 8706);
    DivModUnique(8706, 1461, 5, 1401);
    DivModUnique(1401, 365, 3, 306);
    assert PositionInEra(8706) == EraPosition(0, 5, 3, 306);
    assert MarchYearAndDay(19723 + EpochOffset) == (2023, 306);
    assert MonthOfDay(306, 0) == 10;
    TimeOfDayParts(32_400_000);
  }

  lemma NineOClockText()
    ensures FieldsText(UtcDateTime(2024, 1, 1, 9, 0, 0, 0)) == "20240101T090000Z"
  {
    YearText();
    PadText(1);
    PadText(9);
    PadText(0);
    var y, one, nine, zero := "2024", "01", "09", "00";
    assert y + one + one + "T" + nine + zero + zero + "Z" == "20240101T090000Z";
  }

  lemma YearText()
    ensures IntToString(2024) == "2024"
  {
    assert NatToString(2) == "2";
    assert NatToString(20) == "20";
    assert NatToString(202) == "202";
  }

  lemma PadText(n: int)
    requires 0 <= n < 10
    ensures Pad(n) == ['0', "0123456789"[n]]
  {
  }
}

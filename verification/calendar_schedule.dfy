/** How the calendar export presents a schedule produced by the optimiser:
    the event kinds against the scheduler's overnight decisions, and the
    order of each event's times. */
module CalendarSchedule {
  import opened Types
  import opened RouteOptimizer
  import opened ScheduleProperties
  import opened CivilTime
  import opened ExportUtils

  /** The first stop is always presented as the start of the trip and the
      last as the arrival. An interior stop is an overnight event exactly when
      the scheduler decided an overnight stay there, and otherwise a rest stop
      whose description announces the preferred stop length. */
  lemma ScheduleEventKinds(inp: ScheduleInput, k: nat)
    requires 1 <= |inp.segments| && k <= |inp.segments|
    ensures var stops := Schedule(inp);
            && (EventKindOf(k, |stops|, stops[k]) == StartTrip <==> k == 0)
            && (EventKindOf(k, |stops|, stops[k]) == ArriveAt <==> k == |inp.segments|)
            && (0 < k < |inp.segments| ==>
                  (EventKindOf(k, |stops|, stops[k]) == OvernightStop <==> LookBack(inp, k) || LookAhead(inp, k - 1)))
            && (EventKindOf(k, |stops|, stops[k]) == RestStop ==> stops[k].stopDuration == inp.preferredStopDuration)
  {
    ScheduleShape(inp);
    OvernightDecisions(inp, k);
    StopDurations(inp, k);
  }

  /** When the very first segment is already too long, the origin is turned
      into an overnight stay, yet its event still reads as the start of the
      trip and it starts and ends at the departure instant: the twelve-hour
      stay shows up only in the next stop's arrival. */
  lemma OvernightOriginStillStartsTrip(inp: ScheduleInput)
    requires 1 <= |inp.segments| && LookBack(inp, 0)
    ensures var stops := Schedule(inp);
            && stops[0].isOvernight
            && stops[0].stopDuration == OvernightMinutes
            && EventKindOf(0, |stops|, stops[0]) == StartTrip
            && stops[0].arrivalTime == stops[0].departureTime == inp.departure
            && stops[1].arrivalTime == inp.departure + OvernightMs + Duration(inp, 0) * MsPerSecond
  {
    ScheduleShape(inp);
    OvernightDecisions(inp, 0);
    StopDurations(inp, 0);
    ClockChain(inp, 0);
  }

  /** No event of a schedule ends before it starts, provided the preferred
      stop length is not negative: DTEND reads back no earlier than DTSTART.
      Stated for four-digit years, as `formatICSDate`'s round trip is. */
  lemma ScheduleEventTimesOrdered(inp: ScheduleInput, now: int, k: nat)
    requires k <= |inp.segments| && inp.preferredStopDuration >= 0
    requires Events(Schedule(inp), now).Success?
    requires 1000 <= FromMillis(Schedule(inp)[k].arrivalTime).year <= 9999
    requires 1000 <= FromMillis(Schedule(inp)[k].departureTime).year <= 9999
    ensures var e := Events(Schedule(inp), now).value[k];
            && ParseICSDate(e.start).Some? && ParseICSDate(e.end).Some?
            && ParseICSDate(e.start).value <= ParseICSDate(e.end).value
  {
    var stops := Schedule(inp);
    assert stops[k].arrivalTime <= stops[k].departureTime by {
      ScheduleShape(inp);
      DepartsAfterArriving(inp, k);
    }
    EventTimesOrdered(stops, now, k);
  }
}

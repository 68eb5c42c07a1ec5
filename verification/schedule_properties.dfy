/** What the scheduler's single forward pass guarantees about the stops it
    emits, stated per stop against the two overnight decisions it can take. */
module ScheduleProperties {
  import opened Types
  import opened RouteOptimizer
  import opened CivilTime

  // ---------------------------------------------------------------------------
  // The decisions taken while processing segment `i`

  /** The look-back fired while processing segment `i`: the stop emitted just
      before (stop `i`) was turned into an overnight stay. */
  predicate LookBack(inp: ScheduleInput, i: nat)
    requires i < |inp.segments|
  {
    LookBackFires(StateAfter(inp, i).driven, Duration(inp, i), inp.maxDrivingSeconds)
  }

  /** Seconds driven since the last reset, right after segment `i` was added. */
  function DrivenAfterAdd(inp: ScheduleInput, i: nat): int
    requires i < |inp.segments|
  {
    (if LookBack(inp, i) then 0 else StateAfter(inp, i).driven) + Duration(inp, i)
  }

  /** The look-ahead fired while processing segment `i`: stop `i + 1` was
      emitted as an overnight stay because segment `i + 1` would not fit. */
  predicate LookAhead(inp: ScheduleInput, i: nat)
    requires i < |inp.segments|
  {
    i + 1 < |inp.segments| && Duration(inp, i + 1) > inp.maxDrivingSeconds - DrivenAfterAdd(inp, i)
  }

  /** Stop `j` as it was first emitted, before any look-back patch. */
  function Emitted(inp: ScheduleInput, j: nat): OptimizedStop
    requires j <= |inp.segments|
  {
    StateAfter(inp, j).stops[j]
  }

  /** Minutes stop `i + 1` was emitted with. */
  function EmittedMinutes(inp: ScheduleInput, i: nat): int
    requires i < |inp.segments|
  {
    if LookAhead(inp, i) then OvernightMinutes
    else if i + 1 == |inp.segments| then 0
    else inp.preferredStopDuration
  }

  // ---------------------------------------------------------------------------
  // The per-stop description of the pass

  /** The clock and the day counter always belong to the last emitted stop. */
  lemma StateTracksLastStop(inp: ScheduleInput, k: nat)
    requires k <= |inp.segments|
    ensures StateAfter(inp, k).clock == Emitted(inp, k).departureTime
    ensures StateAfter(inp, k).day == Emitted(inp, k).dayNumber
  {
  }

  /** The stop emitted for segment `i`, in terms of the stop before it. */
  lemma EmittedNext(inp: ScheduleInput, i: nat)
    requires i < |inp.segments|
    ensures var prev := Emitted(inp, i);
            var arrival := prev.departureTime + (if LookBack(inp, i) then OvernightMs else 0)
                           + Duration(inp, i) * MsPerSecond;
            Emitted(inp, i + 1) == OptimizedStop(
              At(inp.waypoints, i + 1),
              arrival,
              arrival + EmittedMinutes(inp, i) * MsPerMinute,
              EmittedMinutes(inp, i),
              prev.dayNumber + (if LookBack(inp, i) then 1 else 0) + (if LookAhead(inp, i) then 1 else 0),
              LookAhead(inp, i),
              LookAhead(inp, i))
  {
    StateTracksLastStop(inp, i);
  }

  /** Once a later stop has been emitted, an earlier stop never changes again. */
  lemma {:induction false} Stable(inp: ScheduleInput, j: nat, k: nat)
    requires j < k <= |inp.segments|
    ensures StateAfter(inp, k).stops[j] == StateAfter(inp, j + 1).stops[j]
    decreases k
  {
    if k > j + 1 {
      Stable(inp, j, k - 1);
    }
  }

  /** Stop `j` of the schedule is the stop as emitted, patched into an
      overnight stay exactly when the look-back fired on segment `j`. */
  lemma FinalStop(inp: ScheduleInput, j: nat)
    requires j <= |inp.segments|
    ensures Schedule(inp)[j] ==
            if j < |inp.segments| && LookBack(inp, j) then Patch(Emitted(inp, j)) else Emitted(inp, j)
  {
    if j < |inp.segments| {
      Stable(inp, j, |inp.segments|);
    }
  }

  /** The driving budget left over after segment `i`: reset by a look-ahead
      overnight stay, otherwise what was driven since the last reset. */
  lemma DrivenAfterStep(inp: ScheduleInput, i: nat)
    requires i < |inp.segments|
    ensures StateAfter(inp, i + 1).driven == if LookAhead(inp, i) then 0 else DrivenAfterAdd(inp, i)
  {
  }

  // ---------------------------------------------------------------------------
  // Properties of the emitted stops

  /** One stop per waypoint position, stop `k` at waypoint `k`; the origin
      departs the moment it is reached, on day 1. */
  lemma ScheduleShape(inp: ScheduleInput)
    ensures |Schedule(inp)| == |inp.segments| + 1
    ensures forall k :: 0 <= k <= |inp.segments| ==> Schedule(inp)[k].waypoint == At(inp.waypoints, k)
    ensures Schedule(inp)[0].arrivalTime == inp.departure
    ensures Schedule(inp)[0].departureTime == inp.departure
    ensures Schedule(inp)[0].dayNumber == 1
  {
    forall k | 0 <= k <= |inp.segments|
      ensures Schedule(inp)[k].waypoint == At(inp.waypoints, k)
    {
      FinalStop(inp, k);
      if k > 0 {
        EmittedNext(inp, k - 1);
      }
    }
    FinalStop(inp, 0);
  }

  /** The destination is never patched: it is reached with no dwell and no
      overnight stay. */
  lemma LastStopIsPlainArrival(inp: ScheduleInput)
    requires |inp.segments| >= 1
    ensures var last := Schedule(inp)[|inp.segments|];
            last.stopDuration == 0 && !last.isOvernight && !last.accommodationNeeded
  {
    var n := |inp.segments|;
    FinalStop(inp, n);
    EmittedNext(inp, n - 1);
  }

  /** A stop is an overnight stay exactly when the look-back fired on the
      segment leaving it or the look-ahead fired on the segment reaching it. */
  lemma OvernightDecisions(inp: ScheduleInput, k: nat)
    requires k <= |inp.segments|
    ensures Schedule(inp)[k].isOvernight <==>
            (k < |inp.segments| && LookBack(inp, k)) || (k >= 1 && LookAhead(inp, k - 1))
  {
    FinalStop(inp, k);
    if k >= 1 {
      EmittedNext(inp, k - 1);
    }
  }

  /** Accommodation is needed exactly at overnight stays; an overnight stay
      lasts 720 minutes, an interior rest stop the preferred duration and the
      origin, unless patched, none. */
  lemma StopDurations(inp: ScheduleInput, k: nat)
    requires k <= |inp.segments|
    ensures Schedule(inp)[k].accommodationNeeded == Schedule(inp)[k].isOvernight
    ensures Schedule(inp)[k].isOvernight ==> Schedule(inp)[k].stopDuration == OvernightMinutes
    ensures !Schedule(inp)[k].isOvernight && 0 < k < |inp.segments| ==>
              Schedule(inp)[k].stopDuration == inp.preferredStopDuration
    ensures !Schedule(inp)[k].isOvernight && (k == 0 || k == |inp.segments|) ==>
              Schedule(inp)[k].stopDuration == 0
  {
    FinalStop(inp, k);
    if k >= 1 {
      EmittedNext(inp, k - 1);
    }
  }

  /** A look-back patch changes the flags and the dwell of the stop it patches
      but leaves its arrival, its departure and its day as they were; so a
      patched stop's departure no longer equals arrival plus dwell. */
  lemma PatchKeepsClock(inp: ScheduleInput, j: nat)
    requires j < |inp.segments| && LookBack(inp, j)
    ensures Schedule(inp)[j].stopDuration == OvernightMinutes
    ensures Schedule(inp)[j].isOvernight && Schedule(inp)[j].accommodationNeeded
    ensures Schedule(inp)[j].arrivalTime == Emitted(inp, j).arrivalTime
    ensures Schedule(inp)[j].departureTime == Emitted(inp, j).departureTime
    ensures Schedule(inp)[j].dayNumber == Emitted(inp, j).dayNumber
  {
    FinalStop(inp, j);
  }

  /** The clock: every stop after the origin departs its emitted dwell after
      it arrives, and the next arrival is that departure plus the overnight
      stay of a look-back plus the segment's driving time. */
  lemma ClockChain(inp: ScheduleInput, i: nat)
    requires i < |inp.segments|
    ensures Schedule(inp)[i + 1].departureTime ==
            Schedule(inp)[i + 1].arrivalTime + EmittedMinutes(inp, i) * MsPerMinute
    ensures Schedule(inp)[i + 1].arrivalTime ==
            Schedule(inp)[i].departureTime + (if LookBack(inp, i) then OvernightMs else 0)
            + Duration(inp, i) * MsPerSecond
    ensures (i + 1 == |inp.segments| || !LookBack(inp, i + 1)) ==>
            Schedule(inp)[i + 1].departureTime ==
            Schedule(inp)[i + 1].arrivalTime + Schedule(inp)[i + 1].stopDuration * MsPerMinute
  {
    FinalStop(inp, i);
    FinalStop(inp, i + 1);
    EmittedNext(inp, i);
  }

  /** Stop `k` departs no earlier than it arrives. */
  lemma DepartsAfterArriving(inp: ScheduleInput, k: nat)
    requires k <= |inp.segments|
    requires inp.preferredStopDuration >= 0
    ensures Schedule(inp)[k].arrivalTime <= Schedule(inp)[k].departureTime
  {
    if k == 0 {
      ScheduleShape(inp);
    } else {
      ClockChain(inp, k - 1);
    }
  }

  /** With non-negative driving times and rest stops, arrivals never go back
      in time along the itinerary. */
  lemma {:induction false} ArrivalsNonDecreasing(inp: ScheduleInput, j: nat, k: nat)
    requires j <= k <= |inp.segments|
    requires inp.preferredStopDuration >= 0
    requires forall i :: 0 <= i < |inp.segments| ==> inp.segments[i].duration >= 0
    ensures Schedule(inp)[j].arrivalTime <= Schedule(inp)[k].arrivalTime
    decreases k
  {
    if j < k {
      ArrivalsNonDecreasing(inp, j, k - 1);
      DepartsAfterArriving(inp, k - 1);
      ClockChain(inp, k - 1);
    }
  }

  /** The budget: right after segment `i` is added, the driving time since the
      last reset is within the budget unless segment `i` alone exceeds it. */
  lemma BudgetRespected(inp: ScheduleInput, i: nat)
    requires i < |inp.segments|
    ensures DrivenAfterAdd(inp, i) <= inp.maxDrivingSeconds || Duration(inp, i) > inp.maxDrivingSeconds
  {
  }

  /** The look-back can only fire on the first segment or right after a
      look-ahead overnight stay, and then exactly when the segment alone is
      longer than the budget. */
  lemma LookBackOnlyAfterLookAhead(inp: ScheduleInput, i: nat)
    requires i < |inp.segments|
    ensures LookBack(inp, i) <==>
            (i == 0 || LookAhead(inp, i - 1)) && Duration(inp, i) > inp.maxDrivingSeconds
  {
    if i > 0 {
      DrivenAfterStep(inp, i - 1);
    }
  }

  /** Day numbers start at 1 and rise by one per overnight decision: a
      look-back adds a day after the stop it patches, a look-ahead adds the
      day to the stop it makes overnight. */
  lemma DayNumbers(inp: ScheduleInput, i: nat)
    requires i < |inp.segments|
    ensures Schedule(inp)[0].dayNumber == 1
    ensures Schedule(inp)[i + 1].dayNumber ==
            Schedule(inp)[i].dayNumber + (if LookBack(inp, i) then 1 else 0)
            + (if LookAhead(inp, i) then 1 else 0)
  {
    ScheduleShape(inp);
    FinalStop(inp, i);
    FinalStop(inp, i + 1);
    EmittedNext(inp, i);
  }

  /** Day numbers never decrease along the itinerary. */
  lemma {:induction false} DayNumbersNonDecreasing(inp: ScheduleInput, j: nat, k: nat)
    requires j <= k <= |inp.segments|
    ensures Schedule(inp)[j].dayNumber <= Schedule(inp)[k].dayNumber
    decreases k
  {
    if j < k {
      DayNumbersNonDecreasing(inp, j, k - 1);
      DayNumbers(inp, k - 1);
    }
  }
}

/** The UTC reading of a millisecond time value, as the `getUTCFullYear` …
    `getUTCSeconds` accessors of a JavaScript `Date` give it (proleptic
    Gregorian calendar), and its inverse `Date.UTC`. Days are counted from
    1 March of year 0 in 400-year eras, centuries, four-year blocks and
    years that start in March, so that a leap day always ends a year. */
module CivilTime {

  const MsPerSecond := 1000
  const MsPerMinute := 60_000
  const MsPerHour := 3_600_000
  const MsPerDay := 86_400_000
  /** Days from 0000-03-01 to 1970-01-01. */
  const EpochOffset := 719_468
  const DaysPerEra := 146_097

  /** Day of the March-based year on which each month starts, March first;
      the last entry is the length of a leap year. */
  const MonthStartDay: seq<int> := [0, 31, 61, 92, 122, 153, 184, 214, 245, 275, 306, 337, 366]

  predicate IsLeapYear(y: int) {
    y % 4 == 0 && (y % 100 != 0 || y % 400 == 0)
  }

  function DaysInMonth(y: int, m: int): int
    requires 1 <= m <= 12
  {
    if m == 2 then (if IsLeapYear(y) then 29 else 28)
    else if m == 4 || m == 6 || m == 9 || m == 11 then 30
    else 31
  }

  /** A calendar date and time of day; `month` is 1-based. */
  datatype UtcDateTime = UtcDateTime(
    year: int, month: int, day: int,
    hours: int, minutes: int, seconds: int, millis: int)

  predicate ValidDate(year: int, month: int, day: int) {
    1 <= month <= 12 && 1 <= day <= DaysInMonth(year, month)
  }

  predicate Valid(dt: UtcDateTime) {
    && ValidDate(dt.year, dt.month, dt.day)
    && 0 <= dt.hours < 24 && 0 <= dt.minutes < 60
    && 0 <= dt.seconds < 60 && 0 <= dt.millis < 1000
  }

  // ---------------------------------------------------------------------------
  // March-based years

  /** Days from the start of an era to the start of its year `k`. */
  function EraDays(k: int): int
    requires 0 <= k < 400
  {
    36524 * (k / 100) + 1461 * ((k % 100) / 4) + 365 * (k % 4)
  }

  /** Days from 0000-03-01 to the 1 March that starts March-based year `y`. */
  function YearStart(y: int): int {
    DaysPerEra * (y / 400) + EraDays(y % 400)
  }

  /** A day within an era, as century, four-year block, year and day of year. */
  datatype EraPosition = EraPosition(century: int, block: int, year: int, dayOfYear: int)

  function PositionInEra(doe: int): (p: EraPosition)
    requires 0 <= doe < DaysPerEra
    ensures 0 <= p.century <= 3 && 0 <= p.block <= 24 && 0 <= p.year <= 3
    ensures 0 <= p.dayOfYear <= 365
    ensures p.dayOfYear == 365 ==> p.year == 3 && (p.block < 24 || p.century == 3)
    ensures doe == 36524 * p.century + 1461 * p.block + 365 * p.year + p.dayOfYear
  {
    var c := if doe / 36524 < 3 then doe / 36524 else 3;
    var r1 := doe - 36524 * c;
    var q := r1 / 1461;
    var r2 := r1 % 1461;
    var yy := if r2 / 365 < 3 then r2 / 365 else 3;
    EraPosition(c, q, yy, r2 - 365 * yy)
  }

  /** The March-based month (0 = March) containing day `doy` of the year. */
  function MonthOfDay(doy: int, from: nat): (mp: nat)
    requires from < 12 && MonthStartDay[from] <= doy < 366
    ensures from <= mp < 12
    ensures MonthStartDay[mp] <= doy < MonthStartDay[mp + 1]
    decreases 12 - from
  {
    if doy < MonthStartDay[from + 1] then from else MonthOfDay(doy, from + 1)
  }

  datatype Date = Date(year: int, month: int, day: int)

  /** The calendar date of day `doy` of March-based year `y`; January and
      February belong to the next calendar year. */
  function MarchDate(y: int, doy: int): Date
    requires 0 <= doy < 366
  {
    var mp := MonthOfDay(doy, 0);
    var d := doy - MonthStartDay[mp] + 1;
    if mp < 10 then Date(y, mp + 3, d) else Date(y + 1, mp - 9, d)
  }

  /** The March-based year and day of year of day `s`, counted from
      0000-03-01. */
  function MarchYearAndDay(s: int): (r: (int, int))
    ensures 0 <= r.1 < 366
  {
    var p := PositionInEra(s % DaysPerEra);
    (400 * (s / DaysPerEra) + 100 * p.century + 4 * p.block + p.year, p.dayOfYear)
  }

  /** The calendar date of day `z`, counted from 1970-01-01. */
  function CivilFromDays(z: int): Date {
    var yd := MarchYearAndDay(z + EpochOffset);
    MarchDate(yd.0, yd.1)
  }

  /** The day number, counted from 1970-01-01, of a calendar date. */
  function DaysFromCivil(year: int, month: int, day: int): int
    requires 1 <= month <= 12
  {
    var y := if month <= 2 then year - 1 else year;
    var mp := if month > 2 then month - 3 else month + 9;
    YearStart(y) + MonthStartDay[mp] + day - 1 - EpochOffset
  }

  /** The UTC fields of time value `t`. Dafny's division rounds towards
      negative infinity for a positive divisor, as the `Date` accessors do. */
  function FromMillis(t: int): UtcDateTime {
    var date := CivilFromDays(t / MsPerDay);
    var tod := t % MsPerDay;
    UtcDateTime(date.year, date.month, date.day,
                tod / MsPerHour, tod % MsPerHour / MsPerMinute, tod % MsPerMinute / MsPerSecond, tod % MsPerSecond)
  }

  /** `Date.UTC`: the time value of a date and time. */
  function ToMillis(dt: UtcDateTime): int
    requires 1 <= dt.month <= 12
  {
    DaysFromCivil(dt.year, dt.month, dt.day) * MsPerDay
    + dt.hours * MsPerHour + dt.minutes * MsPerMinute + dt.seconds * MsPerSecond + dt.millis
  }

  // ---------------------------------------------------------------------------
  // Round trip

  lemma EraYearParts(era: int, c: int, q: int, yy: int)
    requires 0 <= c <= 3 && 0 <= q <= 24 && 0 <= yy <= 3
    ensures var y := 400 * era + 100 * c + 4 * q + yy;
            y / 400 == era && y % 400 == 100 * c + 4 * q + yy
            && YearStart(y) == DaysPerEra * era + 36524 * c + 1461 * q + 365 * yy
  {
    var k := 100 * c + 4 * q + yy;
    assert 0 <= k < 400;
    var y := 400 * era + k;
    assert y / 400 == era && y % 400 == k;
    assert k / 100 == c && k % 100 == 4 * q + yy;
    assert (4 * q + yy) / 4 == q && (4 * q + yy) % 4 == yy;
  }

  /** Euclidean division is determined by a quotient and an in-range remainder. */
  lemma {:induction false} DivModUnique(y: int, m: int, q: int, r: int)
    requires m > 0 && 0 <= r < m && y == m * q + r
    ensures y / m == q && y % m == r
  {
    var q', r' := y / m, y % m;
    assert m * q' + r' == m * q + r;
    assert m * (q' - q) == r - r';
    if q' < q {
      MulAtLeast(m, q - q');
    } else if q' > q {
      MulAtLeast(m, q' - q);
    }
  }

  lemma MulAtLeast(m: int, k: int)
    requires m > 0 && k >= 1
    ensures m * k >= m
  {
  }

  /** The last day of a March-based year is its 366th only when the
      February that ends it has a 29th. */
  lemma LeapDayEndsLeapYear(era: int, c: int, q: int)
    requires 0 <= c <= 3 && 0 <= q <= 24 && (q < 24 || c == 3)
    ensures IsLeapYear(400 * era + 100 * c + 4 * q + 4)
  {
    var y := 400 * era + 100 * c + 4 * q + 4;
    DivModUnique(y, 4, 100 * era + 25 * c + q + 1, 0);
    if q < 24 {
      DivModUnique(y, 100, 4 * era + c, 4 * q + 4);
    } else {
      DivModUnique(y, 400, era + 1, 0);
    }
  }

  /** The civil month of March-based month `mp`. */
  function CivilMonth(mp: int): int
    requires 0 <= mp < 12
  {
    if mp < 10 then mp + 3 else mp - 9
  }

  /** The month table agrees with `DaysInMonth`, February counted as 29 days. */
  lemma MonthTableLengths(mp: int, y: int)
    requires 0 <= mp < 12
    ensures mp < 11 ==> MonthStartDay[mp + 1] - MonthStartDay[mp] == DaysInMonth(y, CivilMonth(mp))
    ensures mp == 11 ==> MonthStartDay[12] - MonthStartDay[11] == 29 && CivilMonth(mp) == 2
  {
  }

  /** Every day number names a valid date, and converting that date back
      gives the day number again. */
  lemma CivilRoundTrip(z: int)
    ensures var dt := CivilFromDays(z);
            ValidDate(dt.year, dt.month, dt.day) && DaysFromCivil(dt.year, dt.month, dt.day) == z
  {
    var yd := MarchYearAndDay(z + EpochOffset);
    YearAndDayParts(z + EpochOffset);
    DateOfMarchDay(yd.0, yd.1);
  }

  /** Day `s` is day `doy` of the March-based year `y` it is placed in, and
      only a year followed by a leap year has a 366th day. */
  lemma YearAndDayParts(s: int)
    ensures var yd := MarchYearAndDay(s);
            YearStart(yd.0) + yd.1 == s && (yd.1 == 365 ==> IsLeapYear(yd.0 + 1))
  {
    var era := s / DaysPerEra;
    var p := PositionInEra(s % DaysPerEra);
    var y := 400 * era + 100 * p.century + 4 * p.block + p.year;
    assert s == DaysPerEra * era + s % DaysPerEra;
    EraYearParts(era, p.century, p.block, p.year);
    if p.dayOfYear == 365 {
      LeapDayEndsLeapYear(era, p.century, p.block);
    }
  }

  /** Day `doy` of March-based year `y` is a valid date whose day number is
      the year's start plus `doy`. */
  lemma DateOfMarchDay(y: int, doy: int)
    requires 0 <= doy < 366
    requires doy == 365 ==> IsLeapYear(y + 1)
    ensures var dt := MarchDate(y, doy);
            ValidDate(dt.year, dt.month, dt.day)
            && DaysFromCivil(dt.year, dt.month, dt.day) == YearStart(y) + doy - EpochOffset
  {
    var mp := MonthOfDay(doy, 0);
    var d := doy - MonthStartDay[mp] + 1;
    var year := if mp < 10 then y else y + 1;
    MonthTableLengths(mp, year);
    assert 1 <= d <= MonthStartDay[mp + 1] - MonthStartDay[mp];
  }

  lemma TimeOfDayParts(tod: int)
    requires 0 <= tod < MsPerDay
    ensures tod == tod / MsPerHour * MsPerHour + tod % MsPerHour / MsPerMinute * MsPerMinute
                   + tod % MsPerMinute / MsPerSecond * MsPerSecond + tod % MsPerSecond
    ensures 0 <= tod / MsPerHour < 24 && 0 <= tod % MsPerHour / MsPerMinute < 60
    ensures 0 <= tod % MsPerMinute / MsPerSecond < 60
  {
    var h := tod / MsPerHour;
    var r := tod % MsPerHour;
    var m := r / MsPerMinute;
    assert tod % MsPerMinute == r % MsPerMinute by {
      assert tod == h * MsPerHour + r;
      assert h * MsPerHour == (h * 60) * MsPerMinute;
    }
    var r2 := r % MsPerMinute;
    assert r2 % MsPerSecond == tod % MsPerSecond by {
      assert r == m * MsPerMinute + r2;
      assert tod == (h * 3600 + m * 60) * MsPerSecond + r2;
    }
  }

  /** The UTC fields of a time value are a valid date and time, and `Date.UTC`
      of them is the time value again. */
  lemma MillisRoundTrip(t: int)
    ensures Valid(FromMillis(t))
    ensures ToMillis(FromMillis(t)) == t
  {
    CivilRoundTrip(t / MsPerDay);
    TimeOfDayParts(t % MsPerDay);
  }

  // ---------------------------------------------------------------------------
  // Order

  /** Within an era, year `k + 1` starts 365 days after year `k`, or 366
      when `k + 1` is a leap year (no year inside an era is a multiple of 400). */
  lemma EraDaysSucc(k: int)
    requires 0 <= k < 399
    ensures EraDays(k + 1) == EraDays(k) + 365 + (if (k + 1) % 4 == 0 && (k + 1) % 100 != 0 then 1 else 0)
  {
    var c, q, yy := k / 100, k % 100 / 4, k % 100 % 4;
    EraDaysParts(c, q, yy);
    if yy < 3 {
      EraDaysParts(c, q, yy + 1);
    } else if q < 24 {
      EraDaysParts(c, q + 1, 0);
    } else {
      EraDaysParts(c + 1, 0, 0);
    }
  }

  /** Year `100 * c + 4 * q + yy` of an era, by century, block and year. */
  lemma EraDaysParts(c: int, q: int, yy: int)
    requires 0 <= c <= 3 && 0 <= q <= 24 && 0 <= yy <= 3
    ensures var k := 100 * c + 4 * q + yy;
            && EraDays(k) == 36524 * c + 1461 * q + 365 * yy
            && k % 4 == yy
            && (k % 100 == 0 <==> q == 0 && yy == 0)
  {
    var k := 100 * c + 4 * q + yy;
    DivModUnique(k, 100, c, 4 * q + yy);
    DivModUnique(4 * q + yy, 4, q, yy);
    DivModUnique(k, 4, 25 * c + q, yy);
  }

  /** Leap years repeat every 400 years. */
  lemma LeapInEra(era: int, j: int)
    requires 0 <= j < 400
    ensures IsLeapYear(400 * era + j) <==> j % 4 == 0 && (j % 100 != 0 || j == 0)
  {
    var y := 400 * era + j;
    DivModUnique(y, 400, era, j);
    DivModUnique(y, 4, 100 * era + j / 4, j % 4);
    DivModUnique(y, 100, 4 * era + j / 100, j % 100);
  }

  /** A March-based year is 365 days long, 366 when the February that ends
      it belongs to a leap year. */
  lemma YearStartSucc(y: int)
    ensures YearStart(y + 1) == YearStart(y) + 365 + (if IsLeapYear(y + 1) then 1 else 0)
  {
    var era := y / 400;
    var k := y % 400;
    if k < 399 {
      DivModUnique(y + 1, 400, era, k + 1);
      EraDaysSucc(k);
      LeapInEra(era, k + 1);
    } else {
      DivModUnique(y + 1, 400, era + 1, 0);
      LeapInEra(era + 1, 0);
      assert EraDays(399) == 145731;
    }
  }

  /** The day number of the first of month `m` of year `y`. */
  function MonthStart(y: int, m: int): int
    requires 1 <= m <= 12
  {
    DaysFromCivil(y, m, 1)
  }

  /** Months follow each other without gap or overlap. */
  lemma NextMonthStart(y: int, m: int)
    requires 1 <= m <= 12
    ensures m < 12 ==> MonthStart(y, m + 1) == MonthStart(y, m) + DaysInMonth(y, m)
    ensures m == 12 ==> MonthStart(y + 1, 1) == MonthStart(y, m) + DaysInMonth(y, m)
  {
    if m == 2 {
      YearStartSucc(y - 1);
    }
  }

  /** The month with running number `n` (twelve per year, January of year 0
      being number 0). */
  function MonthByNumber(n: int): (r: (int, int))
    ensures 1 <= r.1 <= 12
  {
    (n / 12, n % 12 + 1)
  }

  lemma MonthByNumberSucc(n: int)
    ensures var (y, m) := MonthByNumber(n);
            MonthByNumber(n + 1) == if m < 12 then (y, m + 1) else (y + 1, 1)
  {
    var y, m := n / 12, n % 12 + 1;
    if m < 12 {
      DivModUnique(n + 1, 12, y, m);
    } else {
      DivModUnique(n + 1, 12, y + 1, 0);
    }
  }

  lemma {:induction false} MonthStartsIncrease(n1: int, n2: int)
    requires n1 < n2
    ensures var (y1, m1) := MonthByNumber(n1);
            var (y2, m2) := MonthByNumber(n2);
            MonthStart(y1, m1) + DaysInMonth(y1, m1) <= MonthStart(y2, m2)
    decreases n2 - n1
  {
    var (y, m) := MonthByNumber(n2 - 1);
    MonthByNumberSucc(n2 - 1);
    NextMonthStart(y, m);
    if n1 < n2 - 1 {
      MonthStartsIncrease(n1, n2 - 1);
    }
  }

  /** Calendar order of dates. */
  predicate DateBefore(y1: int, m1: int, d1: int, y2: int, m2: int, d2: int) {
    y1 < y2 || (y1 == y2 && (m1 < m2 || (m1 == m2 && d1 < d2)))
  }

  /** Later dates have larger day numbers. */
  lemma DaysFromCivilIncreasing(y1: int, m1: int, d1: int, y2: int, m2: int, d2: int)
    requires ValidDate(y1, m1, d1) && ValidDate(y2, m2, d2)
    requires DateBefore(y1, m1, d1, y2, m2, d2)
    ensures DaysFromCivil(y1, m1, d1) < DaysFromCivil(y2, m2, d2)
  {
    DayOfMonth(y1, m1, d1);
    DayOfMonth(y2, m2, d2);
    if !(y1 == y2 && m1 == m2) {
      var n1 := 12 * y1 + m1 - 1;
      var n2 := 12 * y2 + m2 - 1;
      DivModUnique(n1, 12, y1, m1 - 1);
      DivModUnique(n2, 12, y2, m2 - 1);
      assert MonthByNumber(n1) == (y1, m1) && MonthByNumber(n2) == (y2, m2);
      MonthStartsIncrease(n1, n2);
    }
  }

  /** A date's day number is its month's first day number plus the day. */
  lemma DayOfMonth(y: int, m: int, d: int)
    requires 1 <= m <= 12
    ensures DaysFromCivil(y, m, d) == MonthStart(y, m) + d - 1
  {
  }

  /** Chronological order of date-times: field by field, year first. */
  predicate Before(a: UtcDateTime, b: UtcDateTime) {
    || DateBefore(a.year, a.month, a.day, b.year, b.month, b.day)
    || (a.year == b.year && a.month == b.month && a.day == b.day &&
        (a.hours < b.hours || (a.hours == b.hours &&
         (a.minutes < b.minutes || (a.minutes == b.minutes &&
          (a.seconds < b.seconds || (a.seconds == b.seconds && a.millis < b.millis)))))))
  }

  /** Later date-times have larger time values. */
  lemma ToMillisIncreasing(a: UtcDateTime, b: UtcDateTime)
    requires Valid(a) && Valid(b) && Before(a, b)
    ensures ToMillis(a) < ToMillis(b)
  {
    var da := DaysFromCivil(a.year, a.month, a.day);
    var db := DaysFromCivil(b.year, b.month, b.day);
    if DateBefore(a.year, a.month, a.day, b.year, b.month, b.day) {
      DaysFromCivilIncreasing(a.year, a.month, a.day, b.year, b.month, b.day);
      assert ToMillis(a) < da * MsPerDay + MsPerDay;
      assert (da + 1) * MsPerDay <= db * MsPerDay;
    }
  }

  /** The UTC fields never run backwards as time goes on. */
  lemma FromMillisMonotone(t1: int, t2: int)
    requires t1 <= t2
    ensures !Before(FromMillis(t2), FromMillis(t1))
  {
    MillisRoundTrip(t1);
    MillisRoundTrip(t2);
    if Before(FromMillis(t2), FromMillis(t1)) {
      ToMillisIncreasing(FromMillis(t2), FromMillis(t1));
    }
  }

  /** A valid date and time is the reading of its own time value: the
      conversion is a bijection between time values and valid date-times. */
  lemma ToMillisRoundTrip(dt: UtcDateTime)
    requires Valid(dt)
    ensures FromMillis(ToMillis(dt)) == dt
  {
    var back := FromMillis(ToMillis(dt));
    MillisRoundTrip(ToMillis(dt));
    if back != dt {
      if Before(back, dt) {
        ToMillisIncreasing(back, dt);
      } else {
        assert Before(dt, back);
        ToMillisIncreasing(dt, back);
      }
    }
  }
}

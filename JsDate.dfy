/**
 * The parts of the JavaScript `Date` object the application uses (ECMA-262, 2022 edition,
 * section 21.4): time values as integer milliseconds, the proleptic Gregorian calendar,
 * `toISOString`, the clock part of `toTimeString`, the Date Time String Format parser
 * (section 21.4.1.15) and `setHours`. Local time is UTC plus a fixed offset in milliseconds.
 */
module JsDate {
  import opened Wrappers
  import opened JsText

  const MsPerSecond := 1_000
  const MsPerMinute := 60_000
  const MsPerHour := 3_600_000
  const MsPerDay := 86_400_000
  /** The largest magnitude of a time value (section 21.4.1.1): 10^8 days. */
  const MaxTimeValue := 8_640_000_000_000_000

  /** The time value of a Date object: milliseconds since 1970-01-01T00:00:00Z, or NaN (`Invalid`). */
  datatype DateValue = Valid(ms: int) | Invalid

  /** A time value a Date object can hold (section 21.4.1.1). */
  type Instant = t: int | -MaxTimeValue <= t <= MaxTimeValue

  /** TimeClip (section 21.4.1.31): time values beyond 10^8 days either side of the epoch are NaN. */
  function TimeClip(t: int): (d: DateValue)
    ensures d.Valid? <==> -MaxTimeValue <= t <= MaxTimeValue
    ensures d.Valid? ==> d.ms == t
  {
    if -MaxTimeValue <= t <= MaxTimeValue then Valid(t) else Invalid
  }

  // ---------------------------------------------------------------------------------------------
  // The calendar

  datatype Civil = Civil(year: int, month: int, day: int)

  predicate IsLeapYear(y: int) {
    y % 4 == 0 && (y % 100 != 0 || y % 400 == 0)
  }

  function DaysInMonth(y: int, m: int): int
    requires 1 <= m <= 12
  {
    if m == 2 then (if IsLeapYear(y) then 29 else 28)
    else if m == 4 || m == 6 || m == 9 || m == 11 then 30
    else 31
  }

  /** A calendar date that exists: month 1..12 and a day within that month. */
  predicate ValidCivil(c: Civil) {
    1 <= c.month <= 12 && 1 <= c.day <= DaysInMonth(c.year, c.month)
  }

  /*
   * Day numbers are computed in eras of 400 Gregorian years, each era starting on March 1 so
   * that the leap day is the last day of its year. An era has 146097 days; 0000-03-01 is
   * 719468 days before 1970-01-01.
   */
  const DaysPerEra := 146_097
  const EpochShift := 719_468

  /** Days from March 1 to the first day of month `mp`, March being month 0 and February month 11. */
  function MonthStart(mp: int): int
    requires 0 <= mp < 12
  {
    if mp == 0 then 0 else if mp == 1 then 31 else if mp == 2 then 61 else if mp == 3 then 92
    else if mp == 4 then 122 else if mp == 5 then 153 else if mp == 6 then 184
    else if mp == 7 then 214 else if mp == 8 then 245 else if mp == 9 then 275
    else if mp == 10 then 306 else 337
  }

  /** The March-based month that holds day `doy` of a March-based year. */
  function MonthOfDay(doy: int): (mp: int)
    requires 0 <= doy <= 365
    ensures 0 <= mp < 12 && MonthStart(mp) <= doy
    ensures mp < 11 ==> doy < MonthStart(mp + 1)
  {
    if doy < 31 then 0 else if doy < 61 then 1 else if doy < 92 then 2 else if doy < 122 then 3
    else if doy < 153 then 4 else if doy < 184 then 5 else if doy < 214 then 6
    else if doy < 245 then 7 else if doy < 275 then 8 else if doy < 306 then 9
    else if doy < 337 then 10 else 11
  }

  function CalendarMonth(mp: int): (m: int)
    requires 0 <= mp < 12
    ensures 1 <= m <= 12 && MarchMonth(m) == mp
  {
    if mp < 10 then mp + 3 else mp - 9
  }

  function MarchMonth(m: int): (mp: int)
    requires 1 <= m <= 12
    ensures 0 <= mp < 12
  {
    if m > 2 then m - 3 else m + 9
  }

  /** A position inside an era: the March-based year of the era and the day of that year. */
  datatype EraDay = EraDay(yoe: int, doy: int)

  /** The number of days from the start of the era to a position in it. */
  function DayOfEra(e: EraDay): int {
    e.yoe * 365 + e.yoe / 4 - e.yoe / 100 + e.doy
  }

  /** The March-based year `yoe` of an era is 366 days long: the next calendar year is a leap year. */
  predicate LongYearOfEra(yoe: int) {
    IsLeapYear(yoe + 1)
  }

  /** A well-formed position in an era. */
  predicate ValidEraDay(e: EraDay) {
    0 <= e.yoe < 400 && 0 <= e.doy <= 365 && (e.doy == 365 ==> LongYearOfEra(e.yoe))
  }

  /** Splits a day of era into 100-year, 4-year and 1-year steps. */
  function SplitDayOfEra(doe: int): EraDay
    requires 0 <= doe < DaysPerEra
  {
    SplitCentury(CenturyOfEra(doe), doe - 36524 * CenturyOfEra(doe))
  }

  /** The 100-year step holding a day of era; the fourth holds one day more than the others. */
  function CenturyOfEra(doe: int): int {
    if doe / 36524 < 3 then doe / 36524 else 3
  }

  /** The position of day `r1` of 100-year step `c`, split into 4-year and 1-year steps. */
  function SplitCentury(c: int, r1: int): EraDay {
    var yr := YearOfQuad(r1 % 1461);
    EraDay(100 * c + 4 * (r1 / 1461) + yr, r1 % 1461 - 365 * yr)
  }

  /** The year holding day `r2` of a 4-year step; the fourth year holds one day more than the others. */
  function YearOfQuad(r2: int): int {
    if r2 / 365 < 3 then r2 / 365 else 3
  }

  /** A day of era is its 100-year step and the rest. */
  lemma CenturyOfEraBounds(doe: int)
    requires 0 <= doe < DaysPerEra
    ensures var c := CenturyOfEra(doe); var r1 := doe - 36524 * c;
      0 <= c <= 3 && 0 <= r1 <= 36524 && (c < 3 ==> r1 < 36524)
  {
  }

  /** Day `r1` of 100-year step `c`, counted from the start of the era. */
  lemma SplitCenturySum(c: int, r1: int)
    requires 0 <= c && 0 <= r1 <= 36524
    ensures DayOfEra(SplitCentury(c, r1)) == 36524 * c + r1
  {
    var q := r1 / 1461;
    var yr := YearOfQuad(r1 % 1461);
    DayOfEraOfSteps(c, q, yr, r1 % 1461 - 365 * yr);
  }

  /** Day `r1` of 100-year step `c` is a well-formed position of the era. */
  lemma SplitCenturyValid(c: int, r1: int)
    requires 0 <= c <= 3 && 0 <= r1 <= 36524 && (c < 3 ==> r1 < 36524)
    ensures ValidEraDay(SplitCentury(c, r1))
  {
    var q := r1 / 1461;
    var r2 := r1 % 1461;
    var yr := YearOfQuad(r2);
    assert 0 <= q <= 24 && 0 <= yr <= 3 && 0 <= r2 - 365 * yr <= 365;
    if r2 - 365 * yr == 365 {
      assert yr == 3;
      LeapOfYearEnd(c, q);
    }
  }

  /** The day of era of a position given by its steps. */
  lemma DayOfEraOfSteps(c: int, q: int, yr: int, d: int)
    requires 0 <= c && 0 <= q <= 24 && 0 <= yr <= 3
    ensures DayOfEra(EraDay(100 * c + 4 * q + yr, d)) == 36524 * c + 1461 * q + 365 * yr + d
  {
    var yoe := 100 * c + 4 * q + yr;
    DivOfSum(yoe, 4, 25 * c + q, yr);
    DivOfSum(yoe, 100, c, 4 * q + yr);
  }

  /** The split of a day of era is a well-formed position in the era. */
  lemma SplitDayOfEraValid(doe: int)
    requires 0 <= doe < DaysPerEra
    ensures ValidEraDay(SplitDayOfEra(doe))
  {
    CenturyOfEraBounds(doe);
    SplitCenturyValid(CenturyOfEra(doe), doe - 36524 * CenturyOfEra(doe));
  }

  /** The split of a day of era is a position whose day of era it is. */
  lemma SplitDayOfEraSum(doe: int)
    requires 0 <= doe < DaysPerEra
    ensures DayOfEra(SplitDayOfEra(doe)) == doe
  {
    CenturyOfEraBounds(doe);
    SplitCenturySum(CenturyOfEra(doe), doe - 36524 * CenturyOfEra(doe));
  }

  /** Quotient and remainder by one of the calendar's constant divisors. */
  lemma DivOfSum(a: int, b: int, q: int, r: int)
    requires b in {4, 100, 365, 400, 1461, 36524, DaysPerEra}
    requires a == b * q + r && 0 <= r < b
    ensures a / b == q && a % b == r
  {
    if b == 4 {
    } else if b == 100 {
    } else if b == 365 {
    } else if b == 400 {
    } else if b == 1461 {
    } else if b == 36524 {
    } else {
    }
  }

  /** The year after March-based year 100c + 4q + 3 is a leap year unless it is a century not divisible by 400. */
  lemma LeapOfYearEnd(c: int, q: int)
    requires 0 <= c <= 3 && 0 <= q <= 24 && (q == 24 ==> c == 3)
    ensures LongYearOfEra(100 * c + 4 * q + 3)
  {
    var y := 100 * c + 4 * q + 4;
    DivOfSum(y, 4, 25 * c + q + 1, 0);
    if q < 24 {
      DivOfSum(y, 100, c, 4 * q + 4);
    } else {
      DivOfSum(y, 400, 1, 0);
    }
  }

  /** The day of era of a well-formed position, written out in its 100-year, 4-year and 1-year steps. */
  lemma EraDaySteps(e: EraDay) returns (c: int, q: int, yr: int)
    requires ValidEraDay(e)
    ensures 0 <= c <= 3 && 0 <= q <= 24 && 0 <= yr <= 3 && e.yoe == 100 * c + 4 * q + yr
    ensures DayOfEra(e) == 36524 * c + 1461 * q + 365 * yr + e.doy
    ensures e.doy < 365 || yr == 3
    ensures 1461 * q + 365 * yr + e.doy < 36524 || c == 3
  {
    c := e.yoe / 100;
    q := (e.yoe % 100) / 4;
    yr := e.yoe % 4;
    assert e.yoe == 100 * c + 4 * q + yr;
    DivOfSum(e.yoe, 4, 25 * c + q, yr);
    DivOfSum(e.yoe, 100, c, 4 * q + yr);
    if e.doy == 365 {
      LongYearOfEraShape(e.yoe);
    }
  }

  /** A 366-day March-based year of an era ends a 4-year step, and in the last step of a century only in the fourth century. */
  lemma LongYearOfEraShape(yoe: int)
    requires 0 <= yoe < 400 && LongYearOfEra(yoe)
    ensures yoe % 4 == 3
    ensures (yoe % 100) / 4 == 24 ==> yoe / 100 == 3
  {
    var c := yoe / 100;
    var q := (yoe % 100) / 4;
    var yr := yoe % 4;
    assert yoe == 100 * c + 4 * q + yr;
    if yr < 3 {
      DivOfSum(yoe + 1, 4, 25 * c + q, yr + 1);
    }
    if q == 24 && yr == 3 {
      DivOfSum(yoe + 1, 100, c + 1, 0);
      if c < 3 {
        DivOfSum(yoe + 1, 400, 0, yoe + 1);
      }
    }
  }

  /** Positions written in steps of 36524, 1461 and 365 days within their bounds have distinct sums. */
  lemma StepsUnique(c1: int, q1: int, y1: int, d1: int, c2: int, q2: int, y2: int, d2: int)
    requires 0 <= c1 <= 3 && 0 <= q1 <= 24 && 0 <= y1 <= 3 && 0 <= d1 <= 365
    requires 0 <= c2 <= 3 && 0 <= q2 <= 24 && 0 <= y2 <= 3 && 0 <= d2 <= 365
    requires (d1 < 365 || y1 == 3) && (d2 < 365 || y2 == 3)
    requires (1461 * q1 + 365 * y1 + d1 < 36524 || c1 == 3) && (1461 * q2 + 365 * y2 + d2 < 36524 || c2 == 3)
    requires 36524 * c1 + 1461 * q1 + 365 * y1 + d1 == 36524 * c2 + 1461 * q2 + 365 * y2 + d2
    ensures c1 == c2 && q1 == q2 && y1 == y2 && d1 == d2
  {
    assert c1 == c2;
    assert q1 == q2;
    assert y1 == y2;
  }

  /** Different well-formed positions in an era have different days of era. */
  lemma DayOfEraInjective(e1: EraDay, e2: EraDay)
    requires ValidEraDay(e1) && ValidEraDay(e2) && DayOfEra(e1) == DayOfEra(e2)
    ensures e1 == e2
  {
    var c1, q1, y1 := EraDaySteps(e1);
    var c2, q2, y2 := EraDaySteps(e2);
    StepsUnique(c1, q1, y1, e1.doy, c2, q2, y2, e2.doy);
  }

  /** A well-formed position lies inside its era. */
  lemma DayOfEraBounds(e: EraDay)
    requires ValidEraDay(e)
    ensures 0 <= DayOfEra(e) < DaysPerEra
  {
    var c, q, yr := EraDaySteps(e);
  }

  /** Splitting the day of era of a well-formed position gives that position back. */
  lemma SplitDayOfEraInverse(e: EraDay)
    requires ValidEraDay(e)
    ensures 0 <= DayOfEra(e) < DaysPerEra && SplitDayOfEra(DayOfEra(e)) == e
  {
    DayOfEraBounds(e);
    SplitDayOfEraValid(DayOfEra(e));
    SplitDayOfEraSum(DayOfEra(e));
    DayOfEraInjective(SplitDayOfEra(DayOfEra(e)), e);
  }

  /** Whether a year is a leap year depends only on its position in its 400-year era. */
  lemma LeapYearOfEra(era: int, k: int)
    ensures IsLeapYear(era * 400 + k) == IsLeapYear(k)
  {
    var y := era * 400 + k;
    DivOfSum(y, 4, era * 100 + k / 4, k % 4);
    DivOfSum(y, 100, era * 4 + k / 100, k % 100);
    DivOfSum(y, 400, era + k / 400, k % 400);
  }

  /** The year a date belongs to when years start on March 1. */
  function MarchYear(c: Civil): int {
    if c.month <= 2 then c.year - 1 else c.year
  }

  /** The position of a date in its era. */
  function EraDayOfCivil(c: Civil): EraDay
    requires 1 <= c.month <= 12
  {
    EraDay(MarchYear(c) % 400, MonthStart(MarchMonth(c.month)) + c.day - 1)
  }

  /** The date at a well-formed position of era `era`. */
  function CivilOfEraDay(era: int, e: EraDay): (c: Civil)
    requires 0 <= e.doy <= 365
    ensures 1 <= c.month <= 12 && 1 <= c.day
  {
    var mp := MonthOfDay(e.doy);
    var m := CalendarMonth(mp);
    Civil(era * 400 + e.yoe + (if m <= 2 then 1 else 0), m, e.doy - MonthStart(mp) + 1)
  }

  /** Day number of a calendar date: days since 1970-01-01 in the proleptic Gregorian calendar. */
  function DaysFromCivil(c: Civil): int
    requires 1 <= c.month <= 12
  {
    (MarchYear(c) / 400) * DaysPerEra + DayOfEra(EraDayOfCivil(c)) - EpochShift
  }

  /** The calendar date of a day number; the inverse of `DaysFromCivil`. */
  function CivilFromDays(z: int): (c: Civil)
    ensures 1 <= c.month <= 12 && 1 <= c.day
  {
    var zz := z + EpochShift;
    SplitDayOfEraValid(zz % DaysPerEra);
    CivilOfEraDay(zz / DaysPerEra, SplitDayOfEra(zz % DaysPerEra))
  }

  /** The day of a March-based year of an existing date, and the month it falls in. */
  lemma DayOfYearOfCivil(c: Civil)
    requires ValidCivil(c)
    ensures 0 <= EraDayOfCivil(c).doy <= 365
    ensures MonthOfDay(EraDayOfCivil(c).doy) == MarchMonth(c.month)
    ensures EraDayOfCivil(c).doy == 365 ==> c.month == 2 && IsLeapYear(c.year)
  {
  }

  /** An existing date has a well-formed position in its era. */
  lemma EraDayOfCivilValid(c: Civil)
    requires ValidCivil(c)
    ensures ValidEraDay(EraDayOfCivil(c))
  {
    DayOfYearOfCivil(c);
    var y := MarchYear(c);
    if EraDayOfCivil(c).doy == 365 {
      DivOfSum(y, 400, y / 400, y % 400);
      LeapYearOfEra(y / 400, y % 400 + 1);
    }
  }

  /** The date at a well-formed position exists. */
  lemma CivilOfEraDayValid(era: int, e: EraDay)
    requires ValidEraDay(e)
    ensures ValidCivil(CivilOfEraDay(era, e))
  {
    if e.doy == 365 {
      LeapYearOfEra(era, e.yoe + 1);
    }
  }

  /** The position of the date at a well-formed position is that position, in the same era. */
  lemma EraDayOfCivilOfEraDay(era: int, e: EraDay)
    requires ValidEraDay(e)
    ensures MarchYear(CivilOfEraDay(era, e)) == era * 400 + e.yoe
    ensures EraDayOfCivil(CivilOfEraDay(era, e)) == e
  {
    DivOfSum(era * 400 + e.yoe, 400, era, e.yoe);
  }

  /** An existing date is the date at its own position, in the era of its March-based year. */
  lemma CivilOfEraDayOfCivil(c: Civil)
    requires ValidCivil(c)
    ensures CivilOfEraDay(MarchYear(c) / 400, EraDayOfCivil(c)) == c
  {
    DayOfYearOfCivil(c);
  }

  /** The calendar date of a day number exists: its day lies within its month. */
  lemma CivilFromDaysValid(z: int)
    ensures ValidCivil(CivilFromDays(z))
  {
    var zz := z + EpochShift;
    SplitDayOfEraValid(zz % DaysPerEra);
    CivilOfEraDayValid(zz / DaysPerEra, SplitDayOfEra(zz % DaysPerEra));
  }

  /** The day number of the date at a well-formed position of era `era`. */
  lemma DaysFromCivilOfEraDay(era: int, e: EraDay)
    requires ValidEraDay(e)
    ensures DaysFromCivil(CivilOfEraDay(era, e)) == era * DaysPerEra + DayOfEra(e) - EpochShift
  {
    EraDayOfCivilOfEraDay(era, e);
    DivOfSum(era * 400 + e.yoe, 400, era, e.yoe);
  }

  /** Every day number is the day number of its calendar date. */
  lemma DaysFromCivilOfCivilFromDays(z: int)
    ensures DaysFromCivil(CivilFromDays(z)) == z
  {
    var zz := z + EpochShift;
    SplitDayOfEraValid(zz % DaysPerEra);
    SplitDayOfEraSum(zz % DaysPerEra);
    DaysFromCivilOfEraDay(zz / DaysPerEra, SplitDayOfEra(zz % DaysPerEra));
  }

  /** Every existing calendar date is the calendar date of its day number. */
  lemma CivilFromDaysOfDaysFromCivil(c: Civil)
    requires ValidCivil(c)
    ensures CivilFromDays(DaysFromCivil(c)) == c
  {
    var era := MarchYear(c) / 400;
    var e := EraDayOfCivil(c);
    EraDayOfCivilValid(c);
    SplitDayOfEraInverse(e);
    DivOfSum(DaysFromCivil(c) + EpochShift, DaysPerEra, era, DayOfEra(e));
    CivilOfEraDayOfCivil(c);
  }

  /** The smallest and largest day numbers of dates with a four-digit year. */
  lemma DaysFromCivilBounds(c: Civil)
    requires ValidCivil(c) && 0 <= c.year <= 9999
    ensures -DaysPerEra - EpochShift <= DaysFromCivil(c) < 25 * DaysPerEra - EpochShift
  {
    EraDayOfCivilValid(c);
    DayOfEraBounds(EraDayOfCivil(c));
    var y := MarchYear(c);
    if y < 0 {
      DivOfSum(y, 400, -1, y + 400);
    } else {
      DivOfSum(y, 400, y / 400, y % 400);
    }
  }

  // ---------------------------------------------------------------------------------------------
  // Days and times of day (sections 21.4.1.3 to 21.4.1.14)

  /** Day(t): the number of the day holding instant `t` (division rounds down for a positive divisor). */
  function DayOf(t: int): int {
    t / MsPerDay
  }

  function HourFromTime(t: int): (h: int)
    ensures 0 <= h < 24
  {
    (t / MsPerHour) % 24
  }

  function MinFromTime(t: int): (m: int)
    ensures 0 <= m < 60
  {
    (t / MsPerMinute) % 60
  }

  function SecFromTime(t: int): (s: int)
    ensures 0 <= s < 60
  {
    (t / MsPerSecond) % 60
  }

  function MsFromTime(t: int): (ms: int)
    ensures 0 <= ms < 1000
  {
    t % MsPerSecond
  }

  /** The local time of instant `t` for a zone `offset` milliseconds ahead of UTC. */
  function LocalTime(t: int, offset: int): int {
    t + offset
  }

  /** UTC(t): the instant of local time `t` for a zone `offset` milliseconds ahead of UTC. */
  function Utc(t: int, offset: int): (u: int)
    ensures LocalTime(u, offset) == t
  {
    t - offset
  }

  /** The local calendar date of an instant: what `getFullYear`, `getMonth` and `getDate` read. */
  function LocalCivil(t: int, offset: int): (c: Civil)
    ensures 1 <= c.month <= 12 && 1 <= c.day
  {
    CivilFromDays(DayOf(LocalTime(t, offset)))
  }

  /** An instant at `k` milliseconds into day `z` lies in day `z`. */
  lemma DayOfStart(z: int, k: int)
    requires 0 <= k < MsPerDay
    ensures DayOf(z * MsPerDay + k) == z
  {
  }

  /** The instant `h` hours and `m` minutes into day `z` lies in day `z` and reads `h:m:00.000`. */
  lemma ClockOfDay(z: int, h: int, m: int)
    requires 0 <= h < 24 && 0 <= m < 60
    ensures var t := z * MsPerDay + h * MsPerHour + m * MsPerMinute;
      && DayOf(t) == z && HourFromTime(t) == h && MinFromTime(t) == m
      && SecFromTime(t) == 0 && MsFromTime(t) == 0
  {
    DayOfStart(z, h * MsPerHour + m * MsPerMinute);
    HourOfDay(z, h, m);
    MinuteOfDay(z, h, m);
    SecondOfDay(z, h, m);
  }

  lemma HourOfDay(z: int, h: int, m: int)
    requires 0 <= h < 24 && 0 <= m < 60
    ensures HourFromTime(z * MsPerDay + h * MsPerHour + m * MsPerMinute) == h
  {
    var t := z * MsPerDay + h * MsPerHour + m * MsPerMinute;
    assert t / MsPerHour == z * 24 + h;
  }

  lemma MinuteOfDay(z: int, h: int, m: int)
    requires 0 <= h < 24 && 0 <= m < 60
    ensures MinFromTime(z * MsPerDay + h * MsPerHour + m * MsPerMinute) == m
  {
    var t := z * MsPerDay + h * MsPerHour + m * MsPerMinute;
    assert t / MsPerMinute == (z * 24 + h) * 60 + m;
  }

  lemma SecondOfDay(z: int, h: int, m: int)
    requires 0 <= h < 24 && 0 <= m < 60
    ensures var t := z * MsPerDay + h * MsPerHour + m * MsPerMinute;
      SecFromTime(t) == 0 && MsFromTime(t) == 0
  {
    var t := z * MsPerDay + h * MsPerHour + m * MsPerMinute;
    assert t / MsPerSecond == ((z * 24 + h) * 60 + m) * 60;
  }

  // ---------------------------------------------------------------------------------------------
  // Rendering

  datatype DateError = RangeError

  /** The year of an ISO string: four digits, or a sign and six digits outside 0..9999 (section 21.4.1.15.1). */
  function YearText(y: int): string {
    if 0 <= y <= 9999 then Padded(y, 4)
    else (if y < 0 then "-" else "+") + Padded(if y < 0 then -y else y, 6)
  }

  /** `YYYY-MM-DD`. */
  function DateText(c: Civil): string
    requires 0 <= c.month && 0 <= c.day
  {
    YearText(c.year) + "-" + Padded(c.month, 2) + "-" + Padded(c.day, 2)
  }

  /** `HH:mm`. */
  function ClockText(t: int): string {
    Padded(HourFromTime(t), 2) + ":" + Padded(MinFromTime(t), 2)
  }

  /** `toISOString()` (section 21.4.4.36): the UTC date and time, or a RangeError for an invalid date. */
  function ToIsoString(d: DateValue): Result<string, DateError> {
    match d
    case Invalid => Failure(RangeError)
    case Valid(t) =>
      Success(DateText(CivilFromDays(DayOf(t))) + "T" + ClockText(t) + ":" + Padded(SecFromTime(t), 2)
              + "." + Padded(MsFromTime(t), 3) + "Z")
  }

  /** The ISO string of an instant: `new Date(t).toISOString()` never fails for a time value in range. */
  function Timestamp(t: Instant): string {
    ToIsoString(Valid(t)).value
  }

  /** The `+hhmm` part of a zone offset. */
  function OffsetText(offset: int): string {
    var a := if offset < 0 then -offset else offset;
    (if offset < 0 then "-" else "+") + Padded(a / MsPerHour, 2) + Padded((a % MsPerHour) / MsPerMinute, 2)
  }

  /**
   * `toTimeString()` (section 21.4.4.42): the local `HH:mm:ss`, a space and `GMT` with the offset,
   * or `Invalid Date`. The implementation-defined zone name that may follow is not modelled.
   */
  function ToTimeString(d: DateValue, offset: int): string {
    match d
    case Invalid => "Invalid Date"
    case Valid(t) =>
      var local := LocalTime(t, offset);
      ClockText(local) + ":" + Padded(SecFromTime(local), 2) + " GMT" + OffsetText(offset)
  }

  // ---------------------------------------------------------------------------------------------
  // Parsing (the Date Time String Format, section 21.4.1.15)

  /** `YYYY-MM-DD` read as a date, when the string has that shape and the date exists. */
  function ParseDateKey(s: string): (r: Option<Civil>)
    ensures r.Some? ==> ValidCivil(r.value) && 0 <= r.value.year <= 9999
  {
    if |s| == 10 && s[4] == '-' && s[7] == '-' && AllDigits(s[..4]) && AllDigits(s[5..7]) && AllDigits(s[8..]) then
      DigitsValueBound(s[..4]);
      var c := Civil(DigitsValue(s[..4]), DigitsValue(s[5..7]), DigitsValue(s[8..]));
      if ValidCivil(c) then Some(c) else None
    else
      None
  }

  lemma DigitsValueBound(s: string)
    requires AllDigits(s) && |s| == 4
    ensures DigitsValue(s) <= 9999
  {
    var p := s[..3];
    var q := p[..2];
    assert s[..|s| - 1] == p && p[..|p| - 1] == q && q[..|q| - 1] == q[..1];
    var o := q[..1];
    assert o[..|o| - 1] == [];
    assert DigitsValue(o) < 10;
    assert DigitsValue(q) <= 99;
    assert DigitsValue(p) <= 999;
  }

  /** `HH:mm` read as milliseconds into the day; `24:00` is the midnight that ends the day. */
  function ParseClock(s: string): (r: Option<int>)
    ensures r.Some? ==> 0 <= r.value <= MsPerDay
  {
    if |s| == 5 && s[2] == ':' && AllDigits(s[..2]) && AllDigits(s[3..]) then
      var h := DigitsValue(s[..2]);
      var m := DigitsValue(s[3..]);
      if (h < 24 && m < 60) || (h == 24 && m == 0) then Some(h * MsPerHour + m * MsPerMinute) else None
    else
      None
  }

  /** A date with a four-digit year renders as `YYYY-MM-DD`: ten characters, dashes at 4 and 7. */
  lemma DateTextShape(c: Civil)
    requires ValidCivil(c) && 0 <= c.year <= 9999
    ensures |DateText(c)| == 10 && DateText(c)[4] == '-' && DateText(c)[7] == '-'
    ensures DateText(c)[..4] == Padded(c.year, 4)
    ensures DateText(c)[5..7] == Padded(c.month, 2)
    ensures DateText(c)[8..] == Padded(c.day, 2)
    ensures 'T' !in DateText(c) && ' ' !in DateText(c)
  {
    assert YearText(c.year) == Padded(c.year, 4);
    DateFields(c.year, c.month, c.day);
    DateFieldsLack(c.year, c.month, c.day);
  }

  /** Three numbers rendered as `YYYY-MM-DD`: where each field sits. */
  lemma DateFields(y: nat, m: nat, d: nat)
    requires y < 10_000 && m < 100 && d < 100
    ensures var s := Padded(y, 4) + "-" + Padded(m, 2) + "-" + Padded(d, 2);
      && |s| == 10 && s[4] == '-' && s[7] == '-'
      && s[..4] == Padded(y, 4) && s[5..7] == Padded(m, 2) && s[8..] == Padded(d, 2)
  {
    PaddedWidth(y, 4);
    PaddedWidth(m, 2);
    PaddedWidth(d, 2);
    JoinedFields(Padded(y, 4), '-', Padded(m, 2), '-', Padded(d, 2));
  }

  /** A two- or four-digit field of a number that fits is exactly that wide. */
  lemma PaddedWidth(n: nat, width: nat)
    requires (width == 2 && n < 100) || (width == 4 && n < 10_000)
    ensures |Padded(n, width)| == width
  {
    assert Pow10(2) == 100 && Pow10(4) == 10_000;
    PaddedFacts(n, width);
  }

  /** Neither `T` nor a space occurs in a rendered `YYYY-MM-DD`. */
  lemma DateFieldsLack(y: nat, m: nat, d: nat)
    ensures var s := Padded(y, 4) + "-" + Padded(m, 2) + "-" + Padded(d, 2);
      'T' !in s && ' ' !in s
  {
    PaddedFacts(y, 4);
    PaddedFacts(m, 2);
    PaddedFacts(d, 2);
    JoinedLacks(Padded(y, 4), '-', Padded(m, 2), '-', Padded(d, 2), 'T');
    JoinedLacks(Padded(y, 4), '-', Padded(m, 2), '-', Padded(d, 2), ' ');
  }

  /** Three fields joined by two separators: where each field sits. */
  lemma JoinedFields(a: string, x: char, b: string, y: char, d: string)
    ensures var s := a + [x] + b + [y] + d;
      && |s| == |a| + |b| + |d| + 2 && s[|a|] == x && s[|a| + |b| + 1] == y
      && s[..|a|] == a && s[|a| + 1..|a| + |b| + 1] == b && s[|a| + |b| + 2..] == d
  {
    var s := a + [x] + b + [y] + d;
    assert s[..|a|] == a;
    assert s[|a| + 1..|a| + |b| + 1] == b;
    assert s[|a| + |b| + 2..] == d;
  }

  /** A character that is neither a separator nor a digit is absent from joined digit fields. */
  lemma JoinedLacks(a: string, x: char, b: string, y: char, d: string, z: char)
    requires AllDigits(a) && AllDigits(b) && AllDigits(d)
    requires z != x && z != y && !IsDigit(z)
    ensures z !in a + [x] + b + [y] + d
  {
    NotInDigits(a, z);
    NotInDigits(b, z);
    NotInDigits(d, z);
  }

  /** Reading a rendered date back gives the date: `ParseDateKey` is the inverse of `DateText`. */
  lemma ParseDateKeyOfDateText(c: Civil)
    requires ValidCivil(c) && 0 <= c.year <= 9999
    ensures ParseDateKey(DateText(c)) == Some(c)
  {
    DateTextShape(c);
    PaddedFacts(c.year, 4);
    PaddedFacts(c.month, 2);
    PaddedFacts(c.day, 2);
  }

  /** A clock renders as `HH:mm`: five characters, a colon at 2. */
  lemma ClockTextShape(t: int)
    ensures |ClockText(t)| == 5 && ClockText(t)[2] == ':'
    ensures ClockText(t)[..2] == Padded(HourFromTime(t), 2)
    ensures ClockText(t)[3..] == Padded(MinFromTime(t), 2)
    ensures ' ' !in ClockText(t)
  {
    ClockFields(HourFromTime(t), MinFromTime(t));
  }

  /** Two numbers rendered as `HH:mm`: where each field sits, and that no space occurs. */
  lemma ClockFields(h: nat, m: nat)
    requires h < 100 && m < 100
    ensures var s := Padded(h, 2) + ":" + Padded(m, 2);
      && |s| == 5 && s[2] == ':' && s[..2] == Padded(h, 2) && s[3..] == Padded(m, 2)
      && ' ' !in s
  {
    assert Pow10(2) == 100;
    PaddedFacts(h, 2);
    PaddedFacts(m, 2);
    var hh, mm := Padded(h, 2), Padded(m, 2);
    assert (hh + ":" + mm)[..2] == hh;
    assert (hh + ":" + mm)[3..] == mm;
    NotInDigits(hh, ' ');
    NotInDigits(mm, ' ');
  }

  /** Reading a rendered clock back gives its hours and minutes, as milliseconds into the day. */
  lemma ParseClockOfClockText(t: int)
    ensures ParseClock(ClockText(t)) == Some(HourFromTime(t) * MsPerHour + MinFromTime(t) * MsPerMinute)
  {
    ParseClockFields(HourFromTime(t), MinFromTime(t));
  }

  /** `ParseClock` reads `HH:mm` of an hour and a minute in range back as those. */
  lemma ParseClockFields(h: nat, m: nat)
    requires h < 24 && m < 60
    ensures ParseClock(Padded(h, 2) + ":" + Padded(m, 2)) == Some(h * MsPerHour + m * MsPerMinute)
  {
    ClockFields(h, m);
    PaddedFacts(h, 2);
    PaddedFacts(m, 2);
  }

  /**
   * `new Date(s)`: a date-only string is read as UTC midnight, a date-time string without an
   * offset as local time (section 21.4.1.15). A string of neither shape is NaN.
   */
  function ParseDate(s: string, offset: int): DateValue {
    if |s| == 10 then
      match ParseDateKey(s)
      case Some(c) => TimeClip(DaysFromCivil(c) * MsPerDay)
      case None => Invalid
    else if |s| == 16 && s[10] == 'T' then
      match (ParseDateKey(s[..10]), ParseClock(s[11..]))
      case (Some(c), Some(k)) => TimeClip(Utc(DaysFromCivil(c) * MsPerDay + k, offset))
      case _ => Invalid
    else
      Invalid
  }

  /** `new Date(s)` of a well-formed date-only string is the UTC midnight of its date. */
  lemma ParseDateOfDayKey(s: string, c: Civil, offset: int)
    requires |s| == 10 && ParseDateKey(s) == Some(c)
    ensures ParseDate(s, offset) == Valid(DaysFromCivil(c) * MsPerDay)
  {
    DaysFromCivilBounds(c);
  }

  /**
   * `d.setHours(h, m, sec, ms)` (section 21.4.4.23): the same local day at the given clock time; NaN
   * when the date or one of the arguments is NaN. Arguments past their range carry into other days.
   */
  function SetHours(d: DateValue, h: Option<int>, m: Option<int>, sec: int, ms: int, offset: int): DateValue {
    if d.Invalid? || h.None? || m.None? then Invalid
    else
      var local := LocalTime(d.ms, offset);
      TimeClip(Utc(DayOf(local) * MsPerDay + h.value * MsPerHour + m.value * MsPerMinute + sec * MsPerSecond + ms, offset))
  }
}

/**
 * The application's date helpers (`DateUtils` in utils/dateUtils.ts): the date and time keys a
 * task stores (`YYYY-MM-DD` and `HH:mm`), the 12-hour display of a time key, and the due and
 * today tests. The current instant and the local zone offset are parameters: `now` is what
 * `new Date()` reads and `offset` is the local zone's distance ahead of UTC in milliseconds.
 */
module DateUtils {
  import opened Wrappers
  import opened JsText
  import opened JsDate

  // ---------------------------------------------------------------------------------------------
  // formatDate and formatTime

  /** `formatDate`: the part of the ISO string before `T`; an invalid date throws a RangeError. */
  function FormatDate(d: DateValue): (r: Result<string, DateError>)
    ensures r.Failure? <==> d.Invalid?
  {
    match ToIsoString(d)
    case Failure(e) => Failure(e)
    case Success(s) => Success(BeforeFirst(s, 'T'))
  }

  /** `formatTime`: the first five characters of the part of `toTimeString()` before its first space. */
  function FormatTime(d: DateValue, offset: int): string {
    Prefix(BeforeFirst(ToTimeString(d, offset), ' '), 5)
  }

  /** The date key of an instant is its UTC calendar date, as `YYYY-MM-DD`. */
  lemma FormatDateOfInstant(t: int)
    requires 0 <= CivilFromDays(DayOf(t)).year <= 9999
    ensures FormatDate(Valid(t)) == Success(DateText(CivilFromDays(DayOf(t))))
  {
    var c := CivilFromDays(DayOf(t));
    CivilFromDaysValid(DayOf(t));
    DateTextShape(c);
    BeforeTimePart(DateText(c), ClockText(t), Padded(SecFromTime(t), 2), Padded(MsFromTime(t), 3));
  }

  /** The part of an ISO string before `T` is its date. */
  lemma BeforeTimePart(date: string, clock: string, sec: string, ms: string)
    requires 'T' !in date
    ensures BeforeFirst(date + "T" + clock + ":" + sec + "." + ms + "Z", 'T') == date
  {
    var rest := clock + ":" + sec + "." + ms + "Z";
    assert date + "T" + clock + ":" + sec + "." + ms + "Z" == date + ['T'] + rest;
    BeforeFirstOfJoin(date, 'T', rest);
  }

  /** A date key reads back as the UTC midnight that starts the day of the instant it came from. */
  lemma ParseDateOfFormatDate(t: int, offset: int)
    requires 0 <= CivilFromDays(DayOf(t)).year <= 9999
    ensures ParseDate(FormatDate(Valid(t)).value, offset) == Valid(DayOf(t) * MsPerDay)
  {
    var c := CivilFromDays(DayOf(t));
    FormatDateOfInstant(t);
    CivilFromDaysValid(DayOf(t));
    DateTextShape(c);
    ParseDateKeyOfDateText(c);
    DaysFromCivilOfCivilFromDays(DayOf(t));
    DaysFromCivilBounds(c);
  }

  /** The time key of an instant is its local clock, as `HH:mm`. */
  lemma FormatTimeOfInstant(t: int, offset: int)
    ensures FormatTime(Valid(t), offset) == ClockText(LocalTime(t, offset))
  {
    var local := LocalTime(t, offset);
    ClockTextShape(local);
    var sec := Padded(SecFromTime(local), 2);
    PaddedFacts(SecFromTime(local), 2);
    NotInDigits(sec, ' ');
    BeforeZonePart(ClockText(local), sec, OffsetText(offset));
  }

  /** The part of a `toTimeString()` result before its first space, cut to five characters, is `HH:mm`. */
  lemma BeforeZonePart(clock: string, sec: string, zone: string)
    requires |clock| == 5 && ' ' !in clock && ' ' !in sec
    ensures Prefix(BeforeFirst(clock + ":" + sec + " GMT" + zone, ' '), 5) == clock
  {
    var a := clock + ":" + sec;
    assert clock + ":" + sec + " GMT" + zone == a + [' '] + ("GMT" + zone);
    BeforeFirstOfJoin(a, ' ', "GMT" + zone);
    assert a[..5] == clock;
  }

  /** A time key reads back as the local hours and minutes of the instant it came from. */
  lemma ParseClockOfFormatTime(t: int, offset: int)
    ensures ParseClock(FormatTime(Valid(t), offset))
         == Some(HourFromTime(LocalTime(t, offset)) * MsPerHour + MinFromTime(LocalTime(t, offset)) * MsPerMinute)
  {
    FormatTimeOfInstant(t, offset);
    ParseClockOfClockText(LocalTime(t, offset));
  }

  /** An invalid date does not throw here: `Invalid Date` is cut down to `Inval`. */
  lemma FormatTimeOfInvalid(offset: int)
    ensures FormatTime(Invalid, offset) == "Inval"
  {
    BeforeFirstOfJoin("Invalid", ' ', "Date");
    assert ToTimeString(Invalid, offset) == "Invalid" + [' '] + "Date";
  }

  // ---------------------------------------------------------------------------------------------
  // formatDisplayTime

  /** JavaScript's `a % 12`: the remainder takes the sign of `a`. */
  function JsRem12(a: int): (r: int)
    ensures -12 < r < 12
    ensures (a - r) % 12 == 0
    ensures a >= 0 ==> r >= 0
    ensures a <= 0 ==> r <= 0
  {
    if a >= 0 then a % 12 else -((-a) % 12)
  }

  /** `hour >= 12 ? 'PM' : 'AM'`, where a NaN hour compares false. */
  function Meridiem(hour: Option<int>): string {
    if hour.Some? && hour.value >= 12 then "PM" else "AM"
  }

  /** `hour % 12 || 12`: a zero or NaN remainder is falsy and shows as 12. */
  function DisplayHour(hour: Option<int>): int {
    if hour.None? || JsRem12(hour.value) == 0 then 12 else JsRem12(hour.value)
  }

  /**
   * `formatDisplayTime`: the hour before the first colon read by `parseInt`, shown on the
   * 12-hour clock, then the text between the first and second colon (`undefined` when there is
   * no colon) and the meridiem.
   */
  function FormatDisplayTime(s: string): string {
    var hour := ParseInt(BeforeFirst(s, ':'));
    IntToString(DisplayHour(hour)) + ":" + Minutes(s) + " " + Meridiem(hour)
  }

  /** The second piece of a split at colons, or `undefined`. */
  function Minutes(s: string): string {
    match SecondPiece(s, ':')
    case Some(m) => m
    case None => "undefined"
  }

  /** The 12-hour clock, by cases: midnight is 12 AM, noon is 12 PM. */
  function Hour12(h: int): int
    requires 0 <= h < 24
  {
    if h == 0 then 12 else if h <= 12 then h else h - 12
  }

  /** For an hour of the day, the displayed hour is its 12-hour clock and the meridiem says which half. */
  lemma DisplayHourOfDayHour(h: int)
    requires 0 <= h < 24
    ensures DisplayHour(Some(h)) == Hour12(h) && 1 <= Hour12(h) <= 12
    ensures Meridiem(Some(h)) == if h < 12 then "AM" else "PM"
  {
  }

  /** The displayed hour and meridiem determine the hour of the day. */
  lemma DisplayHourInjective(h1: int, h2: int)
    requires 0 <= h1 < 24 && 0 <= h2 < 24
    requires DisplayHour(Some(h1)) == DisplayHour(Some(h2)) && Meridiem(Some(h1)) == Meridiem(Some(h2))
    ensures h1 == h2
  {
    DisplayHourOfDayHour(h1);
    DisplayHourOfDayHour(h2);
  }

  /** A time key `HH:mm` displays as its 12-hour clock hour without padding, the minutes and AM or PM. */
  lemma FormatDisplayTimeOfClock(t: int)
    ensures FormatDisplayTime(ClockText(t))
         == IntToString(Hour12(HourFromTime(t))) + ":" + Padded(MinFromTime(t), 2) + " "
            + (if HourFromTime(t) < 12 then "AM" else "PM")
  {
    var h, m := Padded(HourFromTime(t), 2), Padded(MinFromTime(t), 2);
    PaddedFacts(HourFromTime(t), 2);
    PaddedFacts(MinFromTime(t), 2);
    NotInDigits(h, ':');
    NotInDigits(m, ':');
    SplitAtColon(h, m);
    assert ClockText(t) == h + ":" + m;
    ParseIntOfDigits(h);
    DisplayHourOfDayHour(HourFromTime(t));
  }

  /** The pieces of `h:m` split at colons, when neither piece holds one. */
  lemma SplitAtColon(h: string, m: string)
    requires ':' !in h && ':' !in m
    ensures BeforeFirst(h + ":" + m, ':') == h
    ensures SecondPiece(h + ":" + m, ':') == Some(m)
  {
    assert h + ":" + m == h + [':'] + m;
    BeforeFirstOfJoin(h, ':', m);
    assert (h + ":" + m)[|h| + 1..] == m;
    BeforeFirstOfAbsent(m, ':');
  }

  /** For any text `h:m` with colon-free pieces, the hour comes from `h` and the minutes are `m` copied as they are. */
  lemma FormatDisplayTimeOfPieces(h: string, m: string)
    requires ':' !in h && ':' !in m
    ensures FormatDisplayTime(h + ":" + m)
         == IntToString(DisplayHour(ParseInt(h))) + ":" + m + " " + Meridiem(ParseInt(h))
  {
    SplitAtColon(h, m);
  }

  /** An hour that is not a number shows as 12 AM. */
  lemma FormatDisplayTimeOfNaN(s: string)
    requires ParseInt(BeforeFirst(s, ':')).None?
    ensures FormatDisplayTime(s) == "12" + ":" + Minutes(s) + " " + "AM"
  {
    var hour := ParseInt(BeforeFirst(s, ':'));
    assert DisplayHour(hour) == 12;
    TwelveText();
  }

  lemma TwelveText()
    ensures IntToString(12) == "12"
  {
    assert NatToDecimal(12) == NatToDecimal(1) + [DigitChar(2)];
  }

  /** Without a colon the hour is read from the whole text and the minutes are `undefined`. */
  lemma FormatDisplayTimeWithoutColon(s: string)
    requires ':' !in s
    ensures FormatDisplayTime(s)
         == IntToString(DisplayHour(ParseInt(s))) + ":" + "undefined" + " " + Meridiem(ParseInt(s))
  {
    BeforeFirstOfAbsent(s, ':');
    assert Minutes(s) == "undefined";
  }

  // ---------------------------------------------------------------------------------------------
  // isTaskDue and isTaskToday

  /** `isTaskDue`: the local date-time `date` `T` `time` is not after now; an unreadable one is never due. */
  predicate IsTaskDue(date: string, time: string, now: Instant, offset: int) {
    match ParseDate(date + "T" + time, offset)
    case Valid(t) => t <= now
    case Invalid => false
  }

  /** How the due test reads well-formed keys: `date` and `time` name a local wall-clock moment. */
  lemma ParseDueMoment(date: string, time: string, c: Civil, k: int, offset: int)
    requires ParseDateKey(date) == Some(c) && ParseClock(time) == Some(k)
    ensures ParseDate(date + "T" + time, offset) == TimeClip(Utc(DaysFromCivil(c) * MsPerDay + k, offset))
  {
    var s := date + "T" + time;
    assert |date| == 10 && |time| == 5;
    assert s[..10] == date && s[11..] == time && s[10] == 'T';
  }

  /** Well-formed keys are due exactly when the local moment they name is not after now. */
  lemma IsTaskDueOfKeys(date: string, time: string, c: Civil, k: int, now: Instant, offset: int)
    requires ParseDateKey(date) == Some(c) && ParseClock(time) == Some(k)
    requires -MsPerDay < offset < MsPerDay
    ensures IsTaskDue(date, time, now, offset) <==> Utc(DaysFromCivil(c) * MsPerDay + k, offset) <= now
  {
    ParseDueMoment(date, time, c, k, offset);
    DaysFromCivilBounds(c);
  }

  /** A task with an unreadable date key is never due. */
  lemma NotDueWithBadDate(date: string, time: string, now: Instant, offset: int)
    requires |date| == 10 && ParseDateKey(date).None?
    ensures !IsTaskDue(date, time, now, offset)
  {
    var s := date + "T" + time;
    assert s[10] == 'T';
    if |s| == 16 {
      assert s[..10] == date;
    }
  }

  /**
   * A task whose date key or time key is malformed, of whatever length, is never due: the text
   * `date` `T` `time` is then no local date-time, so it reads as NaN.
   */
  lemma NotDueWithBadKeys(date: string, time: string, now: Instant, offset: int)
    requires ParseDateKey(date).None? || ParseClock(time).None?
    ensures !IsTaskDue(date, time, now, offset)
  {
    var s := date + "T" + time;
    assert s[|date|] == 'T';
    if |s| == 16 && s[10] == 'T' {
      if |date| == 10 {
        assert s[..10] == date && s[11..] == time;
      } else if |date| < 10 {
        assert s[..10][|date|] == 'T';
        NoDateKeyWithT(s[..10], |date|);
      } else {
        assert s[11..][|date| - 11] == 'T';
        NoClockWithT(s[11..], |date| - 11);
      }
    }
  }

  /** A text with a `T` in it is no date key. */
  lemma NoDateKeyWithT(s: string, i: int)
    requires 0 <= i < |s| && s[i] == 'T'
    ensures ParseDateKey(s).None?
  {
    if |s| == 10 {
      if i < 4 {
        assert s[..4][i] == 'T';
      } else if 4 < i < 7 {
        assert s[5..7][i - 5] == 'T';
      } else if 7 < i {
        assert s[8..][i - 8] == 'T';
      }
    }
  }

  /** A text with a `T` in it is no time key. */
  lemma NoClockWithT(s: string, i: int)
    requires 0 <= i < |s| && s[i] == 'T'
    ensures ParseClock(s).None?
  {
    if |s| == 5 {
      if i < 2 {
        assert s[..2][i] == 'T';
      } else if 2 < i {
        assert s[3..][i - 3] == 'T';
      }
    }
  }

  /** A task that is due stays due as time goes on. */
  lemma IsTaskDueMonotone(date: string, time: string, now1: Instant, now2: Instant, offset: int)
    requires now1 <= now2 && IsTaskDue(date, time, now1, offset)
    ensures IsTaskDue(date, time, now2, offset)
  {
  }

  /**
   * `isTaskToday`: the local day, month and year of now equal those of the parsed date; an
   * unreadable date has NaN fields and is never today.
   */
  predicate IsTaskToday(s: string, now: Instant, offset: int) {
    match ParseDate(s, offset)
    case Invalid => false
    case Valid(t) =>
      var today := LocalCivil(now, offset);
      var task := LocalCivil(t, offset);
      today.day == task.day && today.month == task.month && today.year == task.year
  }

  /** In a zone at or ahead of UTC (by less than a day), the UTC midnight starting day `z` is local day `z`. */
  lemma LocalCivilOfMidnightEast(z: int, offset: int)
    requires 0 <= offset < MsPerDay
    ensures LocalCivil(z * MsPerDay, offset) == CivilFromDays(z)
  {
    DayOfStart(z, offset);
  }

  /** In a zone behind UTC (by at most a day), the UTC midnight starting day `z` is local day `z - 1`. */
  lemma LocalCivilOfMidnightWest(z: int, offset: int)
    requires -MsPerDay <= offset < 0
    ensures LocalCivil(z * MsPerDay, offset) == CivilFromDays(z - 1)
  {
    DayOfStart(z - 1, MsPerDay + offset);
    assert (z - 1) * MsPerDay + (MsPerDay + offset) == z * MsPerDay + offset;
  }

  /**
   * A date key is today exactly when now lies in the same local date as the UTC midnight it
   * names; `z` is the day number of that midnight.
   */
  lemma IsTaskTodayOfKey(s: string, c: Civil, now: Instant, offset: int) returns (z: int)
    requires ParseDateKey(s) == Some(c)
    ensures z == DaysFromCivil(c)
    ensures IsTaskToday(s, now, offset) <==> LocalCivil(now, offset) == LocalCivil(z * MsPerDay, offset)
  {
    z := DaysFromCivil(c);
    assert |s| == 10;
    ParseDateOfDayKey(s, c, offset);
  }

  /** In a zone at or ahead of UTC, a date key is today exactly when it names today's local date. */
  lemma IsTaskTodayEast(s: string, c: Civil, now: Instant, offset: int)
    requires ParseDateKey(s) == Some(c) && 0 <= offset < MsPerDay
    ensures IsTaskToday(s, now, offset) <==> LocalCivil(now, offset) == c
  {
    var z := IsTaskTodayOfKey(s, c, now, offset);
    LocalCivilOfMidnightEast(z, offset);
    CivilFromDaysOfDaysFromCivil(c);
  }

  /**
   * In a zone behind UTC, a date key is read as UTC midnight, which is still the previous local
   * day: the key is today exactly when today's local date is the day before the one it names.
   */
  lemma IsTaskTodayWest(s: string, c: Civil, now: Instant, offset: int) returns (z: int)
    requires ParseDateKey(s) == Some(c) && -MsPerDay <= offset < 0
    ensures z == DaysFromCivil(c)
    ensures IsTaskToday(s, now, offset) <==> LocalCivil(now, offset) == CivilFromDays(z - 1)
  {
    z := IsTaskTodayOfKey(s, c, now, offset);
    LocalCivilOfMidnightWest(z, offset);
  }

  /** So behind UTC a task is never today on the date it names. */
  lemma NotTodayOnItsDateWest(s: string, c: Civil, now: Instant, offset: int)
    requires ParseDateKey(s) == Some(c) && -MsPerDay <= offset < 0
    requires LocalCivil(now, offset) == c
    ensures !IsTaskToday(s, now, offset)
  {
    var z := IsTaskTodayWest(s, c, now, offset);
    CivilFromDaysOfDaysFromCivil(c);
    ConsecutiveDaysDiffer(z);
  }

  /** Two consecutive days have different calendar dates, since they have different day numbers. */
  lemma ConsecutiveDaysDiffer(z: int)
    ensures CivilFromDays(z - 1) != CivilFromDays(z)
  {
    if CivilFromDays(z - 1) == CivilFromDays(z) {
      CivilFromDaysInjective(z - 1, z);
    }
  }

  /** Different day numbers have different calendar dates. */
  lemma CivilFromDaysInjective(z1: int, z2: int)
    requires CivilFromDays(z1) == CivilFromDays(z2)
    ensures z1 == z2
  {
    DaysFromCivilOfCivilFromDays(z1);
    DaysFromCivilOfCivilFromDays(z2);
  }

  /** An unreadable date is never today. */
  lemma NotTodayWhenInvalid(s: string, now: Instant, offset: int)
    requires ParseDate(s, offset).Invalid?
    ensures !IsTaskToday(s, now, offset)
  {
  }
}

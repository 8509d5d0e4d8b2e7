/** FAT dates and times against seconds since 1970, in both directions. */
module Dates {
  import opened Arith

  const SECS_PER_DAY: nat := 86400
  const DAYS_DELTA: nat := 3652
  const YEAR_2100: nat := 120
  const DAYS_IN_WORDS: nat := 128 * 365 + 32  // the years that a date word can name, each fourth of them a leap year

  // ----- the calendar, by counting -----

  predicate IsLeap(year: nat) {
    year % 4 == 0 && (year % 100 != 0 || year % 400 == 0)
  }

  function MonthLength(leap: bool, month: nat): nat {
    if month == 2 then if leap then 29 else 28
    else if month == 4 || month == 6 || month == 9 || month == 11 then 30
    else 31
  }

  /** A day; the year counts from 1980 as in a FAT date. */
  datatype Day = Day(year: nat, month: nat, day: nat)

  predicate IsDay(d: Day) {
    d.year <= 127 && 1 <= d.month <= 12 && 1 <= d.day <= MonthLength(IsLeap(1980 + d.year), d.month)
  }

  function Tomorrow(d: Day): Day {
    if d.day < MonthLength(IsLeap(1980 + d.year), d.month) then Day(d.year, d.month, d.day + 1)
    else if d.month < 12 then Day(d.year, d.month + 1, 1)
    else Day(d.year + 1, 1, 1)
  }

  /** The day n days after 1 January 1980. */
  function DayAfter(n: nat): (d: Day)
    ensures 1 <= d.month <= 12 && 1 <= d.day <= MonthLength(IsLeap(1980 + d.year), d.month)
  {
    if n == 0 then Day(0, 1, 1) else Tomorrow(DayAfter(n - 1))
  }

  /** Days from 1 January 1970 to 1 January of a year. */
  function YearStart(year: nat): nat
    requires 1970 <= year
  {
    if year == 1970 then 0 else YearStart(year - 1) + if IsLeap(year - 1) then 366 else 365
  }

  // ----- date_dos2unix -----

  function DaysInYear(month: nat): nat
    requires month < 16
  {
    match month
    case 2 => 31 case 3 => 59 case 4 => 90 case 5 => 120 case 6 => 151 case 7 => 181
    case 8 => 212 case 9 => 243 case 10 => 273 case 11 => 304 case 12 => 334
    case _ => 0
  }

  /** _date_get_leap_day. */
  function LeapDays(year: nat, month: nat): nat {
    (if year > YEAR_2100 then (year + 3) / 4 - 1 else (year + 3) / 4)
    + if year % 4 == 0 && year != YEAR_2100 && month > 2 then 1 else 0
  }

  /** _date_get_days: days since 1 January 1970. */
  function ClosedDays(d: Day): nat
    requires d.month < 16 && 1 <= d.day
  {
    DaysInYear(d.month) + d.year * 365 + LeapDays(d.year, d.month) + (d.day - 1) + DAYS_DELTA
  }

  lemma LeapIsEveryFourButOne(y: nat)
    requires y <= 127
    ensures IsLeap(1980 + y) <==> y % 4 == 0 && y != YEAR_2100
  {
  }

  lemma MonthsAddUp(leap: bool, month: nat)
    requires 1 <= month < 12
    ensures DaysInYear(month + 1) + (if leap && month + 1 > 2 then 1 else 0)
            == DaysInYear(month) + (if leap && month > 2 then 1 else 0) + MonthLength(leap, month)
  {
  }

  lemma YearsAddUp(y: nat)
    requires y < 127
    ensures 365 * (y + 1) + LeapDays(y + 1, 1) == 365 * y + LeapDays(y, 1) + if IsLeap(1980 + y) then 366 else 365
  {
    LeapIsEveryFourButOne(y);
  }

  lemma LeapDaysOfMonth(y: nat, month: nat)
    requires y <= 127
    ensures LeapDays(y, month) == LeapDays(y, 1) + if IsLeap(1980 + y) && month > 2 then 1 else 0
  {
    LeapIsEveryFourButOne(y);
  }

  /** The closed formula goes up by one from each day to the next, through 2107. */
  lemma ClosedDaysGoUpByOne(d: Day)
    requires IsDay(d) && IsDay(Tomorrow(d))
    ensures ClosedDays(Tomorrow(d)) == ClosedDays(d) + 1
  {
    LeapDaysOfMonth(d.year, d.month);
    if d.day == MonthLength(IsLeap(1980 + d.year), d.month) {
      if d.month < 12 {
        LeapDaysOfMonth(d.year, d.month + 1);
        MonthsAddUp(IsLeap(1980 + d.year), d.month);
      } else {
        YearsAddUp(d.year);
      }
    }
  }

  lemma YearsRise(n: nat)
    requires n > 0
    ensures DayAfter(n - 1).year <= DayAfter(n).year
  {
  }

  /** Counting day by day from 1980 agrees with the closed formula for every day until the end of 2107. */
  lemma {:induction false} ClosedDaysCount(n: nat)
    requires DayAfter(n).year <= 127
    ensures ClosedDays(DayAfter(n)) == DAYS_DELTA + n
  {
    if n > 0 {
      YearsRise(n);
      ClosedDaysCount(n - 1);
      ClosedDaysGoUpByOne(DayAfter(n - 1));
    }
  }

  /** DAYS_DELTA is the length of the ten years before 1980. */
  lemma DeltaIsTenYears()
    ensures YearStart(1980) == DAYS_DELTA
  {
    assert YearStart(1972) == 730;
    assert YearStart(1974) == 730 + 731;
    assert YearStart(1976) == 730 + 731 + 730;
    assert YearStart(1978) == 730 + 731 + 730 + 731;
  }

  // ----- the packed words -----

  /** The date word of a directory entry. */
  function DateWord(d: Day): nat {
    d.day + 32 * d.month + 512 * d.year
  }

  /** The fields of a date word, as date_dos2unix reads them: a missing month or day counts as the first. */
  function DayOfWord(date: nat): (d: Day)
    requires date < 0x1_0000
    ensures d.year <= 127 && 1 <= d.month <= 15 && 1 <= d.day <= 31
  {
    var month, day := date / 32 % 16, date % 32;
    Day(date / 512, if month < 1 then 1 else month, if day < 1 then 1 else day)
  }

  /** A time of day, in steps of two seconds. */
  datatype Time = Time(hour: nat, minute: nat, seconds2: nat)

  predicate IsTime(t: Time) {
    t.hour <= 23 && t.minute <= 59 && t.seconds2 <= 29
  }

  function TimeWord(t: Time): nat {
    t.seconds2 + 32 * t.minute + 2048 * t.hour
  }

  function TimeOfWord(time: nat): Time {
    Time(time / 2048, time / 32 % 64, time % 32)
  }

  function Seconds(t: Time): nat {
    2 * t.seconds2 + 60 * t.minute + 3600 * t.hour
  }

  lemma DateWordRoundTrip(d: Day)
    requires d.year <= 127 && 1 <= d.month <= 12 && 1 <= d.day <= 31
    ensures DateWord(d) < 0x1_0000 && DayOfWord(DateWord(d)) == d
  {
    var w, q := DateWord(d), d.month + 16 * d.year;
    assert w == 32 * q + d.day;
    assert w / 32 == q && w % 32 == d.day;
    assert q % 16 == d.month && q / 16 == d.year;
    assert w / 512 == d.year;
  }

  lemma TimeWordRoundTrip(t: Time)
    requires IsTime(t)
    ensures TimeWord(t) < 0x1_0000 && TimeOfWord(TimeWord(t)) == t
  {
    var w, q := TimeWord(t), t.minute + 64 * t.hour;
    assert w == 32 * q + t.seconds2;
    assert w / 32 == q && w % 32 == t.seconds2;
    assert q % 64 == t.minute && q / 64 == t.hour;
    assert w / 2048 == t.hour;
  }

  /** date_dos2unix. */
  method DateDos2Unix(time: nat, date: nat, secWest: int) returns (secs: int)
    requires time < 0x1_0000 && date < 0x1_0000
    ensures secs == SECS_PER_DAY * ClosedDays(DayOfWord(date)) + Seconds(TimeOfWord(time)) + secWest
  {
    var year := date / 512;
    var month := date / 32 % 16;
    if month < 1 {
      month := 1;
    }
    var day := date % 32;
    day := (if day < 1 then 1 else day) - 1;
    var leapDay := if year > YEAR_2100 then (year + 3) / 4 - 1 else (year + 3) / 4;
    if year % 4 == 0 && year != YEAR_2100 && month > 2 {
      leapDay := leapDay + 1;
    }
    var days := DaysInYear(month) + year * 365 + leapDay + day + DAYS_DELTA;
    secs := time % 32 * 2;
    secs := secs + time / 32 % 64 * 60;
    secs := secs + time / 2048 * 3600;
    secs := secs + days * SECS_PER_DAY + secWest;
  }

  // ----- fat_date_unix2dos, whose calendar has a leap day every four years -----

  /** A day of the calendar without the exception for 2100. */
  predicate IsJulian(d: Day) {
    1 <= d.month <= 12 && 1 <= d.day <= MonthLength(d.year % 4 == 0, d.month)
  }

  function JulianYear(y: nat): nat {
    365 * y + (y + 3) / 4
  }

  /** Days since 1 January 1980 in that calendar. */
  function JulianDays(d: Day): nat
    requires IsJulian(d)
  {
    JulianYear(d.year) + DaysInYear(d.month) + (if d.year % 4 == 0 && d.month > 2 then 1 else 0) + d.day - 1
  }

  lemma WordsHold128Years()
    ensures JulianYear(128) == DAYS_IN_WORDS
  {
  }

  lemma YearOfDay(n: nat)
    requires n < DAYS_IN_WORDS
    ensures var y := n / 365;
            && (JulianYear(y) > n ==> y > 0 && JulianYear(y - 1) <= n < JulianYear(y))
            && (JulianYear(y) <= n ==> n < JulianYear(y + 1))
  {
  }

  /** The year, and the day of the year from 0 on. */
  method SplitYear(n: nat) returns (year: nat, day: nat)
    requires n < DAYS_IN_WORDS
    ensures JulianYear(year) <= n < JulianYear(year + 1) && day == n - JulianYear(year)
    ensures year <= 127
  {
    year := n / 365;
    YearOfDay(n);
    if (year + 3) / 4 + 365 * year > n {
      year := year - 1;
    }
    day := n - ((year + 3) / 4 + 365 * year);
  }

  /** The month and day of the month. */
  method SplitMonth(year: nat, day: nat) returns (month: nat, dayOfMonth: nat)
    requires day < 365 + if year % 4 == 0 then 1 else 0
    ensures IsJulian(Day(year, month, dayOfMonth))
    ensures JulianDays(Day(year, month, dayOfMonth)) == JulianYear(year) + day
  {
    var nlDay;
    if day == 59 && year % 4 == 0 {
      nlDay, month := day, 2;
    } else {
      nlDay := if year % 4 != 0 || day <= 59 then day else day - 1;
      month := 1;
      while month < 12
        invariant 1 <= month <= 12 && DaysInYear(month) <= nlDay
      {
        if DaysInYear(month + 1) > nlDay {
          break;
        }
        month := month + 1;
      }
    }
    dayOfMonth := nlDay - DaysInYear(month) + 1;
  }

  /** Hours, minutes and seconds of a time make up its part of the day. */
  lemma PartsOfDay(u: nat)
    ensures u % SECS_PER_DAY == 3600 * (u / 3600 % 24) + 60 * (u / 60 % 60) + u % 60
  {
    var m, h := u / 60, u / 3600;
    assert h == m / 60 && m == 60 * h + m % 60;
    assert u == 60 * m + u % 60;
    assert h == 24 * (h / 24) + h % 24;
    assert u / SECS_PER_DAY == h / 24;
  }

  lemma EvenSecond(u: nat)
    ensures u % 60 % 2 == u % 2
  {
  }

  method TimeOfSeconds(u: nat) returns (msTime: nat)
    ensures msTime < 0x1_0000 && IsTime(TimeOfWord(msTime))
    ensures Seconds(TimeOfWord(msTime)) == u % SECS_PER_DAY - u % 2
  {
    PartsOfDay(u);
    EvenSecond(u);
    var s, m, h := u % 60, u / 60 % 60, u / 3600 % 24;
    msTime := PackTime(h, m, s);
  }

  method PackTime(h: nat, m: nat, s: nat) returns (msTime: nat)
    requires h < 24 && m < 60 && s < 60
    ensures msTime < 0x1_0000 && IsTime(TimeOfWord(msTime))
    ensures Seconds(TimeOfWord(msTime)) == 3600 * h + 60 * m + s - s % 2
  {
    msTime := s / 2 + m * 32 + h * 2048;
    TimeWordRoundTrip(Time(h, m, s / 2));
  }

  /** The date word of the n-th day from 1 January 1980 on in that calendar. */
  ghost predicate IsDateOf(n: nat, msDate: nat) {
    && msDate < 0x1_0000
    && var d := DayOfWord(msDate);
    && IsJulian(d) && msDate == DateWord(d) && JulianDays(d) == n
  }

  method DateOfDays(n: nat) returns (msDate: nat)
    requires n < DAYS_IN_WORDS
    ensures IsDateOf(n, msDate)
  {
    var year, day := SplitYear(n);
    var month, dayOfMonth := SplitMonth(year, day);
    msDate := dayOfMonth + month * 32 + year * 512;
    DateWordRoundTrip(Day(year, month, dayOfMonth));
  }

  /** What fat_date_unix2dos makes of a time from 1980 on: the day, and an even second. */
  ghost predicate IsDosOf(u: nat, msTime: nat, msDate: nat) {
    && SECS_PER_DAY * DAYS_DELTA <= u && IsDateOf(u / SECS_PER_DAY - DAYS_DELTA, msDate)
    && msTime < 0x1_0000 && IsTime(TimeOfWord(msTime)) && Seconds(TimeOfWord(msTime)) == u % SECS_PER_DAY - u % 2
  }

  /** fat_date_unix2dos: times before 1980 count as the start of 1980. */
  method FatDateUnix2Dos(unixDate: int) returns (msTime: nat, msDate: nat)
    requires unixDate < SECS_PER_DAY * (DAYS_DELTA + DAYS_IN_WORDS)
    ensures IsDosOf(if unixDate < SECS_PER_DAY * DAYS_DELTA then SECS_PER_DAY * DAYS_DELTA else unixDate, msTime, msDate)
  {
    var u := if unixDate < 315532800 then 315532800 else unixDate;
    msTime := TimeOfSeconds(u);
    msDate := DateOfDays(u / 86400 - 3652);
  }

  // ----- the two directions -----

  /** Days of that calendar are different when the days are, and in the same order. */
  lemma JulianDaysRise(a: Day, b: Day)
    requires IsJulian(a) && IsJulian(b)
    requires a.year < b.year || (a.year == b.year && (a.month < b.month || (a.month == b.month && a.day < b.day)))
    ensures JulianDays(a) < JulianDays(b)
  {
    if a.year < b.year {
      DayInYear(a);
      YearsOfJulianRise(a.year + 1, b.year);
    } else if a.month < b.month {
      MonthInYear(a, b.month);
    }
  }

  lemma DayInYear(a: Day)
    requires IsJulian(a)
    ensures JulianDays(a) < JulianYear(a.year + 1)
  {
    MonthInYear(a, 12);
  }

  /** A day lies before every later month. */
  lemma {:induction false} MonthInYear(a: Day, month: nat)
    requires IsJulian(a) && a.month <= month <= 12
    ensures var leap := a.year % 4 == 0;
            JulianDays(a) < JulianYear(a.year) + DaysInYear(month) + (if leap && month > 2 then 1 else 0)
                            + if month == a.month then MonthLength(leap, month) else 0
    decreases month
  {
    if a.month < month {
      MonthInYear(a, month - 1);
      MonthsAddUp(a.year % 4 == 0, month - 1);
    }
  }

  lemma YearsOfJulianRise(y: nat, z: nat)
    requires y <= z
    ensures JulianYear(y) <= JulianYear(z)
  {
  }

  /** The real calendar and this one part on 1 March 2100. */
  predicate IsBeforeMarch2100(d: Day) {
    d.year < YEAR_2100 || (d.year == YEAR_2100 && d.month <= 2)
  }

  lemma CalendarsPart(d: Day)
    requires IsDay(d)
    ensures IsJulian(d) && ClosedDays(d) == DAYS_DELTA + JulianDays(d) - if IsBeforeMarch2100(d) then 0 else 1
  {
    LeapIsEveryFourButOne(d.year);
  }

  /** JulianDays tells the days of that calendar apart. */
  lemma JulianDaysDiffer(a: Day, b: Day)
    requires IsJulian(a) && IsJulian(b) && JulianDays(a) == JulianDays(b)
    ensures a == b
  {
    if a != b {
      if a.year < b.year || (a.year == b.year && (a.month < b.month || (a.month == b.month && a.day < b.day))) {
        JulianDaysRise(a, b);
      } else {
        JulianDaysRise(b, a);
      }
    }
  }

  /** The seconds since 1970 of a day and time, by counting. */
  function UnixTime(d: Day, t: Time): nat
    requires IsDay(d)
  {
    SECS_PER_DAY * ClosedDays(d) + Seconds(t)
  }

  lemma SecondsInDay(days: nat, t: Time)
    requires IsTime(t)
    ensures var u := SECS_PER_DAY * days + Seconds(t);
            u / SECS_PER_DAY == days && u % SECS_PER_DAY == Seconds(t) && u % 2 == 0 && Seconds(t) < SECS_PER_DAY
  {
  }

  lemma SecondsDiffer(t: Time, r: Time)
    requires IsTime(t) && IsTime(r) && Seconds(t) == Seconds(r)
    ensures t == r
  {
    if t.hour < r.hour {
      HoursRise(t, r);
    } else if r.hour < t.hour {
      HoursRise(r, t);
    } else if t.minute < r.minute {
      MinutesRise(t, r);
    } else if r.minute < t.minute {
      MinutesRise(r, t);
    }
  }

  lemma HoursRise(t: Time, r: Time)
    requires IsTime(t) && IsTime(r) && t.hour < r.hour
    ensures Seconds(t) < Seconds(r)
  {
  }

  lemma MinutesRise(t: Time, r: Time)
    requires IsTime(t) && IsTime(r) && t.hour == r.hour && t.minute < r.minute
    ensures Seconds(t) < Seconds(r)
  {
  }

  lemma TimeWordIsUnique(w: nat)
    requires w < 0x1_0000 && IsTime(TimeOfWord(w))
    ensures TimeWord(TimeOfWord(w)) == w
  {
    var q := w / 32;
    DivModUnique(w, 2048, q / 64, 32 * (q % 64) + w % 32);
  }

  /**
   * Converting a valid date and time to seconds and back gives the same two words exactly when the date is before
   * March 2100.
   */
  lemma DosRoundTripIff(d: Day, t: Time, msTime: nat, msDate: nat)
    requires IsDay(d) && IsTime(t) && IsDosOf(UnixTime(d, t), msTime, msDate)
    ensures msTime == TimeWord(t)
    ensures msDate == DateWord(d) <==> IsBeforeMarch2100(d)
  {
    CalendarsPart(d);
    SecondsInDay(ClosedDays(d), t);
    SecondsDiffer(t, TimeOfWord(msTime));
    TimeWordIsUnique(msTime);
    DateWordRoundTrip(d);
    if IsBeforeMarch2100(d) {
      JulianDaysDiffer(d, DayOfWord(msDate));
    }
  }

  /** The start of 1 March 2100. */
  const MARCH_2100: nat := 4107542400

  /** Converting seconds to a date and back rounds down to an even second, exactly for times before March 2100. */
  lemma UnixRoundTripIff(u: nat, msTime: nat, msDate: nat)
    requires IsDosOf(u, msTime, msDate)
    ensures var d := DayOfWord(msDate);
            IsDay(d) && UnixTime(d, TimeOfWord(msTime)) == u - u % 2 <==> u < MARCH_2100
  {
    var d := DayOfWord(msDate);
    LeapIsEveryFourButOne(d.year);
    var leapDay := Day(YEAR_2100, 2, 29);
    assert SECS_PER_DAY * (JulianDays(leapDay) + DAYS_DELTA) == MARCH_2100;
    if d == leapDay {
      assert !IsDay(d);
    } else {
      CalendarsPart(d);
      if IsBeforeMarch2100(d) {
        JulianDaysRise(d, leapDay);
      } else {
        JulianDaysRise(leapDay, d);
      }
    }
  }

  /** date_dos2unix is strictly monotone over all valid dates and times, through 2107. */
  lemma UnixTimeRises(a: Day, s: Time, b: Day, t: Time)
    requires IsDay(a) && IsDay(b) && IsTime(s) && IsTime(t)
    requires DateWord(a) < DateWord(b) || (a == b && TimeWord(s) < TimeWord(t))
    ensures UnixTime(a, s) < UnixTime(b, t)
  {
    SecondsInDay(ClosedDays(a), s);
    if a == b {
      TimesRise(s, t);
    } else {
      DatesRise(a, b);
    }
  }

  lemma TimesRise(s: Time, t: Time)
    requires IsTime(s) && IsTime(t) && TimeWord(s) < TimeWord(t)
    ensures Seconds(s) < Seconds(t)
  {
    assert s.hour <= t.hour;
    if s.hour == t.hour {
      assert s.minute <= t.minute;
    }
  }

  lemma DatesRise(a: Day, b: Day)
    requires IsDay(a) && IsDay(b) && DateWord(a) < DateWord(b)
    ensures ClosedDays(a) < ClosedDays(b)
  {
    CalendarsPart(a);
    CalendarsPart(b);
    JulianDaysRise(a, b);
    if IsBeforeMarch2100(a) && !IsBeforeMarch2100(b) {
      LastOfFebruary2100(a, b);
    }
  }

  lemma LastOfFebruary2100(a: Day, b: Day)
    requires IsDay(a) && IsDay(b) && IsBeforeMarch2100(a) && !IsBeforeMarch2100(b)
    ensures IsJulian(a) && IsJulian(b) && JulianDays(a) + 1 < JulianDays(b)
  {
    var leapDay := Day(YEAR_2100, 2, 29);
    LeapIsEveryFourButOne(a.year);
    LeapIsEveryFourButOne(b.year);
    JulianDaysRise(a, leapDay);
    JulianDaysRise(leapDay, b);
  }
}

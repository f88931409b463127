/** n_leapdays and tor_timegm of src/common/util.c. */
module Calendar {
  import opened Division

  const INT32_MAX: int := 0x7fff_ffff

  /** IS_LEAPYEAR */
  predicate IsLeapYear(y: nat) {
    y % 4 == 0 && (y % 100 != 0 || y % 400 == 0)
  }

  /** n_leapdays; with years from 1 on, the divisions are the source's. */
  function LeapDays(y1: nat, y2: nat): int
    requires 1 <= y1 && 1 <= y2
  {
    var a, b := y1 - 1, y2 - 1;
    (b / 4 - a / 4) - (b / 100 - a / 100) + (b / 400 - a / 400)
  }

  /** How many of the years from y1 up to y2 are leap years. */
  function LeapYears(y1: nat, y2: nat): nat
    requires y1 <= y2
  {
    if y1 == y2 then 0 else LeapYears(y1, y2 - 1) + if IsLeapYear(y2 - 1) then 1 else 0
  }

  lemma {:induction false} LeapDaysCount(y1: nat, y2: nat)
    requires 1 <= y1 <= y2
    ensures LeapDays(y1, y2) == LeapYears(y1, y2)
    decreases y2
  {
    if y1 < y2 {
      LeapDaysCount(y1, y2 - 1);
      Carry(y2 - 1, 4);
      Carry(y2 - 1, 100);
      Carry(y2 - 1, 400);
      Multiples(y2 - 1);
    }
  }

  /** A quotient rises exactly at the multiples. */
  lemma Carry(y: nat, n: nat)
    requires 1 <= y && n in {4, 100, 400}
    ensures y / n - (y - 1) / n == if y % n == 0 then 1 else 0
  {
  }

  lemma Multiples(y: nat)
    ensures (y % 400 == 0 ==> y % 100 == 0) && (y % 100 == 0 ==> y % 4 == 0)
  {
    if y % 400 == 0 {
      QuotientIs(y, 100, y / 400 * 4, 0);
    }
    if y % 100 == 0 {
      QuotientIs(y, 4, y / 100 * 25, 0);
    }
  }

  const DAYS_PER_MONTH: seq<nat> := [31, 28, 31, 30, 31, 30, 31, 31, 30, 31, 30, 31]

  /** struct tm, with the year in full. */
  datatype Time = Time(year: nat, mon: nat, mday: int, hour: int, min: int, sec: int)

  function DaysIn(year: nat, mon: nat): nat
    requires mon < 12
  {
    DAYS_PER_MONTH[mon] + if mon == 1 && IsLeapYear(year) then 1 else 0
  }

  predicate ValidDay(t: Time) {
    1970 <= t.year && t.mon < 12 && 1 <= t.mday <= DaysIn(t.year, t.mon)
  }

  predicate Valid(t: Time) {
    ValidDay(t) && 0 <= t.hour < 24 && 0 <= t.min < 60 && 0 <= t.sec < 60
  }

  /** The days of the year before the month. */
  function MonthStart(year: nat, mon: nat): nat
    requires mon <= 12
  {
    if mon == 0 then 0 else MonthStart(year, mon - 1) + DaysIn(year, mon - 1)
  }

  /** The days before the year, since 1970. */
  function YearStart(year: nat): nat
    requires 1970 <= year
  {
    if year == 1970 then 0 else YearStart(year - 1) + 365 + if IsLeapYear(year - 1) then 1 else 0
  }

  /** The days between the first of January 1970 and a day. */
  function DayNumber(t: Time): int
    requires 1970 <= t.year && t.mon < 12
  {
    YearStart(t.year) + MonthStart(t.year, t.mon) + t.mday - 1
  }

  function Seconds(t: Time): int
    requires 1970 <= t.year && t.mon < 12
  {
    ((DayNumber(t) * 24 + t.hour) * 60 + t.min) * 60 + t.sec
  }

  lemma {:induction false} YearStartIs(year: nat)
    requires 1970 <= year
    ensures YearStart(year) == 365 * (year - 1970) + LeapYears(1970, year)
    decreases year
  {
    if year > 1970 {
      YearStartIs(year - 1);
    }
  }

  /** The days between the first of January 1970 and a day, without a table: years are taken to
      begin in March, so that the leap day is their last and the months before a date have
      (153 * m + 2) / 5 days. */
  function Civil(year: nat, mon: nat, mday: int): int
    requires 1 <= year
  {
    var y, m := if mon < 2 then year - 1 else year, (mon + 10) % 12;
    365 * y + y / 4 - y / 100 + y / 400 + (153 * m + 2) / 5 + mday - 719469
  }

  /** The day number is that of the Gregorian calendar. */
  lemma DayNumberIsCivil(t: Time)
    requires 1970 <= t.year && t.mon < 12
    ensures DayNumber(t) == Civil(t.year, t.mon, t.mday)
  {
    hide YearStart, MonthStart, LeapYears, LeapDays;
    YearStartIs(t.year);
    LeapDaysCount(1970, t.year);
    LeapDaysAre(t.year);
    MonthStartIs(t.year, t.mon);
  }

  lemma LeapDaysAre(year: nat)
    requires 1970 <= year
    ensures var y := year - 1; LeapDays(1970, year) == y / 4 - y / 100 + y / 400 - 477
    ensures year / 4 - year / 100 + year / 400 ==
            (year - 1) / 4 - (year - 1) / 100 + (year - 1) / 400 + if IsLeapYear(year) then 1 else 0
  {
    Carry(year, 4);
    Carry(year, 100);
    Carry(year, 400);
    Multiples(year);
  }

  lemma MonthStartIs(year: nat, mon: nat)
    requires mon < 12
    ensures MonthStart(year, mon) == (153 * ((mon + 10) % 12) + 2) / 5 +
                                     if mon < 2 then -306 else 59 + if IsLeapYear(year) then 1 else 0
  {
    hide IsLeapYear;
    var leap := if IsLeapYear(year) then 1 else 0;
    assert MonthStart(year, 1) == 31;
    assert MonthStart(year, 2) == 59 + leap;
    assert MonthStart(year, 4) == 120 + leap;
    assert MonthStart(year, 6) == 181 + leap;
    assert MonthStart(year, 8) == 243 + leap;
    assert MonthStart(year, 10) == 304 + leap;
  }

  /** A day is in its month if it comes before the first of the next one. */
  lemma ValidIffBeforeNextMonth(t: Time)
    ensures ValidDay(t) <==>
              && 1970 <= t.year && t.mon < 12 && 1 <= t.mday
              && Civil(t.year, t.mon, t.mday) <
                   (if t.mon < 11 then Civil(t.year, t.mon + 1, 1) else Civil(t.year + 1, 0, 1))
  {
    hide Civil;
    if 1970 <= t.year && t.mon < 12 {
      var last := t.(mday := DaysIn(t.year, t.mon));
      NextDayNumber(last);
      DayNumberIsCivil(t);
      DayNumberIsCivil(last);
      DayNumberIsCivil(NextDay(last));
    }
  }

  datatype Result = OutOfRange | At(seconds: int)

  /** tor_timegm, on the fields tm_year, tm_mon and so on as they are. */
  method Timegm(tmYear: int, tmMon: int, mday: int, hour: int, min: int, sec: int) returns (r: Result)
    ensures r == OutOfRange <==> tmYear + 1900 < 1970 || tmMon < 0 || tmMon > 11 || tmYear >= INT32_MAX - 1900
    ensures r.At? ==> r.seconds == Seconds(Time(tmYear + 1900, tmMon, mday, hour, min, sec))
    ensures r.At? ==> r.seconds == ((Civil(tmYear + 1900, tmMon, mday) * 24 + hour) * 60 + min) * 60 + sec
  {
    hide LeapYears, LeapDays, YearStart, Civil;
    var year := tmYear + 1900;
    if year < 1970 || tmMon < 0 || tmMon > 11 || tmYear >= INT32_MAX - 1900 {
      return OutOfRange;
    }
    DayNumberIsCivil(Time(year, tmMon, mday, hour, min, sec));
    LeapDaysCount(1970, year);
    YearStartIs(year);
    var days := 365 * (year - 1970) + LeapDays(1970, year);
    assert days == YearStart(year);
    for i := 0 to tmMon
      invariant days == YearStart(year) + MonthStart(year, i) - if i > 1 && IsLeapYear(year) then 1 else 0
    {
      days := days + DAYS_PER_MONTH[i];
    }
    if tmMon > 1 && IsLeapYear(year) {
      days := days + 1;
    }
    days := days + (mday - 1);
    var hours := days * 24 + hour;
    var minutes := hours * 60 + min;
    var seconds := minutes * 60 + sec;
    return At(seconds);
  }

  /** The day after. */
  function NextDay(t: Time): Time
    requires ValidDay(t)
  {
    if t.mday < DaysIn(t.year, t.mon) then t.(mday := t.mday + 1)
    else if t.mon < 11 then t.(mon := t.mon + 1, mday := 1)
    else t.(year := t.year + 1, mon := 0, mday := 1)
  }

  lemma YearLength(year: nat)
    ensures MonthStart(year, 12) == 365 + if IsLeapYear(year) then 1 else 0
  {
    hide IsLeapYear;
    var leap := if IsLeapYear(year) then 1 else 0;
    assert MonthStart(year, 1) == 31;
    assert MonthStart(year, 2) == 59 + leap;
    assert MonthStart(year, 4) == 120 + leap;
    assert MonthStart(year, 6) == 181 + leap;
    assert MonthStart(year, 8) == 243 + leap;
    assert MonthStart(year, 10) == 304 + leap;
  }

  /** The day number rises by one from each day to the next. */
  lemma NextDayNumber(t: Time)
    requires ValidDay(t)
    ensures ValidDay(NextDay(t)) && DayNumber(NextDay(t)) == DayNumber(t) + 1
  {
    YearLength(t.year);
    hide IsLeapYear;
  }

  predicate EarlierDay(s: Time, t: Time) {
    s.year < t.year || (s.year == t.year && (s.mon < t.mon || (s.mon == t.mon && s.mday < t.mday)))
  }

  predicate SameDay(s: Time, t: Time) {
    s.year == t.year && s.mon == t.mon && s.mday == t.mday
  }

  predicate Earlier(s: Time, t: Time) {
    || EarlierDay(s, t)
    || (SameDay(s, t)
       && (s.hour < t.hour || (s.hour == t.hour && (s.min < t.min || (s.min == t.min && s.sec < t.sec)))))
  }

  lemma {:induction false} MonthsRise(year: nat, m: nat, n: nat)
    requires m < n <= 12
    ensures MonthStart(year, m) + DaysIn(year, m) <= MonthStart(year, n)
    decreases n
  {
    hide DaysIn;
    if m < n - 1 {
      MonthsRise(year, m, n - 1);
    }
  }

  lemma {:induction false} YearsRise(y: nat, z: nat)
    requires 1970 <= y < z
    ensures YearStart(y) + MonthStart(y, 12) <= YearStart(z)
    decreases z
  {
    hide IsLeapYear, MonthStart;
    YearLength(y);
    if y < z - 1 {
      YearsRise(y, z - 1);
    }
  }

  lemma DaysRise(s: Time, t: Time)
    requires ValidDay(s) && ValidDay(t) && EarlierDay(s, t)
    ensures DayNumber(s) < DayNumber(t)
  {
    hide MonthStart, YearStart, DaysIn;
    MonthsRise(s.year, s.mon, 12);
    if s.year < t.year {
      YearsRise(s.year, t.year);
    } else if s.mon < t.mon {
      MonthsRise(s.year, s.mon, t.mon);
    }
  }

  /** tor_timegm is strictly increasing on valid times, and so never gives two of them the same
      number. */
  lemma SecondsRise(s: Time, t: Time)
    requires Valid(s) && Valid(t)
    ensures Earlier(s, t) <==> Seconds(s) < Seconds(t)
  {
    hide DayNumber, DaysIn;
    if EarlierDay(s, t) {
      DaysRise(s, t);
    } else if EarlierDay(t, s) {
      DaysRise(t, s);
    } else {
      SameNumber(s, t);
    }
  }

  lemma SameNumber(s: Time, t: Time)
    requires ValidDay(s) && ValidDay(t) && SameDay(s, t)
    ensures DayNumber(s) == DayNumber(t)
  {
  }
}

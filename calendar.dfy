/**
  The proleptic Gregorian calendar arithmetic of ECMAScript `Date` objects
  (ECMA-262, section 21.4.1 "Overview of Date Objects and Definitions of
  Abstract Operations"), restricted to what `setDate` (section 21.4.4.20) and
  `setFullYear` (section 21.4.4.21) need.

  A time value is an integer count of milliseconds since 1970-01-01T00:00Z.
  Local time is taken to be UTC, so LocalTime and UTC are the identity.
  Months are numbered 0 (January) to 11 (December) and dates 1 to 31, as in
  the standard.
*/
module Calendar {

  const MsPerDay: int := 86400000

  /** Day(t): the day number that contains time value t. */
  function Day(t: int): int { t / MsPerDay }

  /** TimeWithinDay(t): milliseconds since the start of that day. */
  function TimeWithinDay(t: int): (ms: int)
    ensures 0 <= ms < MsPerDay
  { t % MsPerDay }

  /** MakeDate(day, time) */
  function MakeDate(day: int, time: int): int { day * MsPerDay + time }

  lemma DateDecomposition(t: int)
    ensures MakeDate(Day(t), TimeWithinDay(t)) == t
  {}

  /** A time value made from a day and a time within it splits back into them. */
  lemma MakeDateParts(day: int, time: int)
    requires 0 <= time < MsPerDay
    ensures Day(MakeDate(day, time)) == day
    ensures TimeWithinDay(MakeDate(day, time)) == time
  {
    var t := MakeDate(day, time);
    assert t == day * 86400000 + time;
  }

  /** Time values with the same time of day differ by whole days. */
  lemma MakeDateShift(a: int, b: int, time: int)
    ensures MakeDate(a, time) - MakeDate(b, time) == (a - b) * MsPerDay
  {}

  /** The leap-year rule of the Gregorian calendar. */
  predicate InLeapYear(y: int) {
    y % 4 == 0 && (y % 100 != 0 || y % 400 == 0)
  }

  /** DaysInYear(y) */
  function DaysInYear(y: int): (n: int)
    ensures n == 365 || n == 366
    ensures n == 366 <==> InLeapYear(y)
  {
    if InLeapYear(y) then 366 else 365
  }

  /**
    DayFromYear(y): the day number of the first day of year y, counted in
    whole years from 1970. The standard's closed form is proved equal below
    (DayFromYearClosedForm).
  */
  function DayFromYear(y: int): int
    decreases if y < 1970 then 1970 - y else y - 1970
  {
    if y == 1970 then 0
    else if y > 1970 then DayFromYear(y - 1) + DaysInYear(y - 1)
    else DayFromYear(y + 1) - DaysInYear(y)
  }

  /** Consecutive years start exactly DaysInYear apart. */
  lemma DayFromYearStep(y: int)
    ensures DayFromYear(y + 1) == DayFromYear(y) + DaysInYear(y)
  {
    if y + 1 > 1970 {
      assert DayFromYear(y + 1) == DayFromYear(y) + DaysInYear(y);
    } else {
      assert DayFromYear(y) == DayFromYear(y + 1) - DaysInYear(y);
    }
  }

  /** The number of leap days ECMA-262 counts in DayFromYear before year y. */
  function LeapDaysSince1970(y: int): int {
    (y - 1969) / 4 - (y - 1901) / 100 + (y - 1601) / 400
  }

  /**
    Each of the three leap-year counts in the closed form goes up by one from
    year y to year y + 1 exactly when y is a multiple of its divisor.
  */
  lemma QuadrennialStep(y: int)
    ensures (y + 1 - 1969) / 4 == (y - 1969) / 4 + (if y % 4 == 0 then 1 else 0)
  {}

  lemma CentennialStep(y: int)
    ensures (y + 1 - 1901) / 100 == (y - 1901) / 100 + (if y % 100 == 0 then 1 else 0)
  {}

  lemma QuadricentennialStep(y: int)
    ensures (y + 1 - 1601) / 400 == (y - 1601) / 400 + (if y % 400 == 0 then 1 else 0)
  {}

  /** The leap-day count grows by one exactly across a leap year. */
  lemma LeapDaysStep(y: int)
    ensures LeapDaysSince1970(y + 1) == LeapDaysSince1970(y) + DaysInYear(y) - 365
  {
    QuadrennialStep(y);
    CentennialStep(y);
    QuadricentennialStep(y);
    DaysInYearCorrections(y);
  }

  /** DaysInYear as 365 plus the three leap-year corrections. */
  lemma DaysInYearCorrections(y: int)
    ensures DaysInYear(y) == 365 + (if y % 4 == 0 then 1 else 0)
      - (if y % 100 == 0 then 1 else 0) + (if y % 400 == 0 then 1 else 0)
  {
    if y % 400 == 0 {
      MultipleOf(y, 400, 4);
    }
    if y % 100 == 0 {
      MultipleOf(y, 100, 25);
    }
  }

  /** A multiple of 400 is a multiple of 100, and a multiple of 100 one of 4. */
  lemma MultipleOf(y: int, m: int, k: int)
    requires (m == 400 && k == 4) || (m == 100 && k == 25)
    requires y % m == 0
    ensures y % (m / k) == 0
  {
    var q := y / m;
    assert y == m * q;
    assert y == (m / k) * (k * q);
  }

  /**
    DayFromYear agrees with the closed form of ECMA-262, section 21.4.1.3:
    365 × (y − 1970) + ⌊(y − 1969) / 4⌋ − ⌊(y − 1901) / 100⌋ + ⌊(y − 1601) / 400⌋.
  */
  lemma {:induction false} DayFromYearClosedForm(y: int)
    ensures DayFromYear(y) == 365 * (y - 1970) + LeapDaysSince1970(y)
    decreases if y < 1970 then 1970 - y else y - 1970
  {
    if y == 1970 {
      assert LeapDaysSince1970(1970) == 0;
    } else if y > 1970 {
      DayFromYearClosedForm(y - 1);
      LeapDaysStep(y - 1);
    } else {
      DayFromYearClosedForm(y + 1);
      LeapDaysStep(y);
    }
  }

  /** Later years start later: DayFromYear is strictly increasing. */
  lemma {:induction false} DayFromYearMonotone(a: int, b: int)
    requires a < b
    ensures DayFromYear(a) + 365 * (b - a) <= DayFromYear(b)
    decreases b - a
  {
    DayFromYearStep(b - 1);
    if a < b - 1 {
      DayFromYearMonotone(a, b - 1);
    }
  }

  /** Search upwards from year y for the year containing day d. */
  function YearUp(d: int, y: int): (r: int)
    requires DayFromYear(y) <= d
    ensures DayFromYear(r) <= d < DayFromYear(r + 1)
    decreases d - DayFromYear(y)
  {
    DayFromYearStep(y);
    if d < DayFromYear(y + 1) then y else YearUp(d, y + 1)
  }

  /** Search downwards from year y for the year containing day d. */
  function YearDown(d: int, y: int): (r: int)
    requires d < DayFromYear(y + 1)
    ensures DayFromYear(r) <= d < DayFromYear(r + 1)
    decreases DayFromYear(y + 1) - d
  {
    DayFromYearStep(y);
    if DayFromYear(y) <= d then y else YearDown(d, y - 1)
  }

  /**
    YearFromTime, on day numbers: the largest year whose first day is not
    after day d.
  */
  function YearFromDay(d: int): (y: int)
    ensures DayFromYear(y) <= d < DayFromYear(y + 1)
  {
    if d >= 0 then YearUp(d, 1970) else YearDown(d, 1969)
  }

  /** Only one year contains a given day, so YearFromDay is determined by its ensures. */
  lemma YearFromDayUnique(d: int, y: int)
    requires DayFromYear(y) <= d < DayFromYear(y + 1)
    ensures YearFromDay(d) == y
  {
    var z := YearFromDay(d);
    if z < y {
      DayFromYearMonotone(z + 1, y);
      assert false;
    } else if y < z {
      DayFromYearMonotone(y + 1, z);
      assert false;
    }
  }

  /** Days before the first day of month m (0..12) in a year of the given kind. */
  function MonthStart(m: int, leap: bool): (n: int)
    requires 0 <= m <= 12
    ensures 0 <= n <= 366
  {
    var common :=
      match m
      case 0 => 0   case 1 => 31  case 2 => 59   case 3 => 90
      case 4 => 120 case 5 => 151 case 6 => 181  case 7 => 212
      case 8 => 243 case 9 => 273 case 10 => 304 case 11 => 334
      case _ => 365;
    common + (if leap && m >= 2 then 1 else 0)
  }

  /** A leap year has one day more than a common year before every month after February. */
  lemma MonthStartLeap(m: int, leap: bool)
    requires 0 <= m <= 12
    ensures MonthStart(m, leap) == MonthStart(m, false) + (if leap && m >= 2 then 1 else 0)
  {}

  /** The number of days in month m of a year of the given kind. */
  function DaysInMonth(m: int, leap: bool): (n: int)
    requires 0 <= m < 12
    ensures 28 <= n <= 31
    ensures n == 28 <==> m == 1 && !leap
    ensures n == 29 <==> m == 1 && leap
  {
    MonthStart(m + 1, leap) - MonthStart(m, leap)
  }

  /** MonthFromTime, on the day within the year. */
  function MonthFromDayInYear(dwy: int, leap: bool): (m: int)
    requires 0 <= dwy < (if leap then 366 else 365)
    ensures 0 <= m < 12
    ensures MonthStart(m, leap) <= dwy < MonthStart(m + 1, leap)
  {
    var l := if leap then 1 else 0;
    if dwy < 31 then 0
    else if dwy < 59 + l then 1
    else if dwy < 90 + l then 2
    else if dwy < 120 + l then 3
    else if dwy < 151 + l then 4
    else if dwy < 181 + l then 5
    else if dwy < 212 + l then 6
    else if dwy < 243 + l then 7
    else if dwy < 273 + l then 8
    else if dwy < 304 + l then 9
    else if dwy < 334 + l then 10
    else 11
  }

  /** Only one month contains a given day of the year. */
  lemma MonthFromDayInYearUnique(dwy: int, leap: bool, m: int)
    requires 0 <= m < 12
    requires MonthStart(m, leap) <= dwy < MonthStart(m + 1, leap)
    ensures MonthFromDayInYear(dwy, leap) == m
  {}

  /** The civil date (year, month 0..11, date 1..31) of a day number. */
  datatype Civil = Civil(year: int, month: int, date: int)

  /** Whether (year, month, date) names an existing day. */
  predicate IsCivil(c: Civil) {
    0 <= c.month < 12 && 1 <= c.date <= DaysInMonth(c.month, InLeapYear(c.year))
  }

  /** YearFromTime, MonthFromTime and DateFromTime together, on day numbers. */
  function CivilFromDay(d: int): (c: Civil)
    ensures IsCivil(c)
  {
    var y := YearFromDay(d);
    DayFromYearStep(y);
    var dwy := d - DayFromYear(y);
    var m := MonthFromDayInYear(dwy, InLeapYear(y));
    Civil(y, m, dwy - MonthStart(m, InLeapYear(y)) + 1)
  }

  /**
    MakeDay(year, month, date). The month is first brought into 0..11 by
    carrying whole years, then the date is added to the first day of that
    month; a date outside the month's days rolls over into neighbouring
    months, as the standard requires.
  */
  function MakeDay(year: int, month: int, date: int): (d: int)
    ensures 0 <= month < 12 ==> d == DayFromYear(year) + MonthStart(month, InLeapYear(year)) + date - 1
  {
    var ym := year + month / 12;
    var mn := month % 12;
    assert 0 <= month < 12 ==> ym == year && mn == month;
    DayFromYear(ym) + MonthStart(mn, InLeapYear(ym)) + date - 1
  }

  /**
    Twelve months more is one year more, and one date more is one day more:
    MakeDay rolls months over into years and dates over into months.
  */
  lemma MakeDayCarries(year: int, month: int, date: int)
    ensures MakeDay(year, month + 12, date) == MakeDay(year + 1, month, date)
    ensures MakeDay(year, month, date + 1) == MakeDay(year, month, date) + 1
  {
    assert (month + 12) / 12 == month / 12 + 1;
    assert (month + 12) % 12 == month % 12;
  }

  /** Decomposing a day number and reassembling it gives the same day. */
  lemma CivilRoundTrip(d: int)
    ensures var c := CivilFromDay(d); MakeDay(c.year, c.month, c.date) == d
  {
    var c := CivilFromDay(d);
  }

  /** The day of an existing civil date lies within its month and its year. */
  lemma CivilDayBounds(c: Civil, d: int)
    requires IsCivil(c)
    requires d == MakeDay(c.year, c.month, c.date)
    ensures DayFromYear(c.year) <= d < DayFromYear(c.year + 1)
    ensures MonthStart(c.month, InLeapYear(c.year)) <= d - DayFromYear(c.year)
      < MonthStart(c.month + 1, InLeapYear(c.year))
  {
    DayFromYearStep(c.year);
  }

  /** Assembling an existing civil date and decomposing it gives it back. */
  lemma DayRoundTrip(c: Civil, d: int)
    requires IsCivil(c)
    requires d == MakeDay(c.year, c.month, c.date)
    ensures CivilFromDay(d) == c
  {
    CivilDayBounds(c, d);
    YearFromDayUnique(d, c.year);
    MonthFromDayInYearUnique(d - DayFromYear(c.year), InLeapYear(c.year), c.month);
  }

  /** The fields read by getFullYear, getMonth and getDate (local time taken as UTC). */
  function YearFromTime(t: int): int { CivilFromDay(Day(t)).year }
  function MonthFromTime(t: int): int { CivilFromDay(Day(t)).month }
  function DateFromTime(t: int): int { CivilFromDay(Day(t)).date }

  /**
    Date.prototype.setDate(date) applied to the time value t. The time of
    day is kept; a date that exists in t's month is set as given, in the
    same year and month.
  */
  function SetDate(t: int, date: int): (r: int)
    ensures TimeWithinDay(r) == TimeWithinDay(t)
    ensures IsCivil(Civil(YearFromTime(t), MonthFromTime(t), date)) ==>
      YearFromTime(r) == YearFromTime(t) && MonthFromTime(r) == MonthFromTime(t) && DateFromTime(r) == date
  {
    var c := Civil(YearFromTime(t), MonthFromTime(t), date);
    var day := MakeDay(c.year, c.month, c.date);
    MakeDateParts(day, TimeWithinDay(t));
    if IsCivil(c) then
      DayRoundTrip(c, day);
      MakeDate(day, TimeWithinDay(t))
    else
      MakeDate(day, TimeWithinDay(t))
  }

  /**
    Date.prototype.setFullYear(year) applied to the time value t. The time
    of day is kept; when t's month and date exist in the given year, the
    result is that day of that year.
  */
  function SetFullYear(t: int, year: int): (r: int)
    ensures TimeWithinDay(r) == TimeWithinDay(t)
    ensures IsCivil(Civil(year, MonthFromTime(t), DateFromTime(t))) ==>
      YearFromTime(r) == year && MonthFromTime(r) == MonthFromTime(t) && DateFromTime(r) == DateFromTime(t)
  {
    var c := Civil(year, MonthFromTime(t), DateFromTime(t));
    var day := MakeDay(c.year, c.month, c.date);
    MakeDateParts(day, TimeWithinDay(t));
    if IsCivil(c) then
      DayRoundTrip(c, day);
      MakeDate(day, TimeWithinDay(t))
    else
      MakeDate(day, TimeWithinDay(t))
  }

  /**
    Setting the date to k days before the current date moves the time value
    back by exactly k whole days, rolling over month and year boundaries.
  */
  lemma SetDateShift(t: int, k: int)
    ensures SetDate(t, DateFromTime(t) - k) == t - k * MsPerDay
  {
    CivilRoundTrip(Day(t));
  }

  /** 29 February carried back to a common year is 1 March of that year. */
  lemma LeapDayPreviousYear(y: int)
    requires !InLeapYear(y)
    ensures CivilFromDay(MakeDay(y, 1, 29)) == Civil(y, 2, 1)
  {
    DayRoundTrip(Civil(y, 2, 1), MakeDay(y, 1, 29));
  }

  /** A day other than 29 February exists in every year. */
  lemma OrdinaryDayPreviousYear(c: Civil)
    requires IsCivil(c)
    requires !(c.month == 1 && c.date == 29 && !InLeapYear(c.year - 1))
    ensures CivilFromDay(MakeDay(c.year - 1, c.month, c.date)) == Civil(c.year - 1, c.month, c.date)
  {
    var p := Civil(c.year - 1, c.month, c.date);
    assert DaysInMonth(c.month, InLeapYear(p.year)) >= c.date by {
      if c.month != 1 {
        assert DaysInMonth(c.month, InLeapYear(p.year)) == DaysInMonth(c.month, InLeapYear(c.year));
      }
    }
    DayRoundTrip(p, MakeDay(c.year - 1, c.month, c.date));
  }

  /**
    MakeDay of the same month and date one year earlier: that day when it
    exists in the previous year, and 1 March for 29 February.
  */
  lemma PreviousYearCivil(c: Civil)
    requires IsCivil(c)
    ensures var p := CivilFromDay(MakeDay(c.year - 1, c.month, c.date));
      && p.year == c.year - 1
      && (if c.month == 1 && c.date == 29 && !InLeapYear(c.year - 1)
          then p.month == 2 && p.date == 1
          else p.month == c.month && p.date == c.date)
  {
    if c.month == 1 && c.date == 29 && !InLeapYear(c.year - 1) {
      LeapDayPreviousYear(c.year - 1);
    } else {
      OrdinaryDayPreviousYear(c);
    }
  }

  /**
    The day of MakeDay for the same month and date one year earlier lies 365
    or 366 days back: 366 exactly when a 29 February falls in between.
  */
  lemma PreviousYearDistance(c: Civil)
    requires IsCivil(c)
    ensures MakeDay(c.year, c.month, c.date) - MakeDay(c.year - 1, c.month, c.date)
      == if c.month >= 2 then DaysInYear(c.year) else DaysInYear(c.year - 1)
  {
    var y, m := c.year, c.month;
    var now, back := InLeapYear(y), InLeapYear(y - 1);
    DayFromYearStep(y - 1);
    MonthStartLeap(m, now);
    MonthStartLeap(m, back);
    calc {
      MakeDay(y, m, c.date) - MakeDay(y - 1, m, c.date);
      DayFromYear(y) - DayFromYear(y - 1) + MonthStart(m, now) - MonthStart(m, back);
      DaysInYear(y - 1) + (if now && m >= 2 then 1 else 0) - (if back && m >= 2 then 1 else 0);
    }
  }

  /**
    Setting the year to the previous one keeps month and date when that day
    exists in the previous year; 29 February of a leap year becomes 1 March.
    The time of day is unchanged either way.
  */
  lemma SetFullYearPrevious(t: int)
    ensures var f := SetFullYear(t, YearFromTime(t) - 1);
      var c := CivilFromDay(Day(f));
      && TimeWithinDay(f) == TimeWithinDay(t)
      && c.year == YearFromTime(t) - 1
      && (if MonthFromTime(t) == 1 && DateFromTime(t) == 29 && !InLeapYear(c.year)
          then c.month == 2 && c.date == 1
          else c.month == MonthFromTime(t) && c.date == DateFromTime(t))
  {
    var now := CivilFromDay(Day(t));
    var back := MakeDay(now.year - 1, now.month, now.date);
    var f := SetFullYear(t, YearFromTime(t) - 1);
    assert f == MakeDate(back, TimeWithinDay(t));
    MakeDateParts(back, TimeWithinDay(t));
    PreviousYearCivil(now);
    assert CivilFromDay(Day(f)) == CivilFromDay(back);
  }

  /**
    Setting the year to the previous one moves the time value back by 365 or
    366 whole days: 366 exactly when the 29 February crossed lies in the
    span.
  */
  lemma SetFullYearPreviousSpan(t: int)
    ensures var f := SetFullYear(t, YearFromTime(t) - 1);
      var y := YearFromTime(t);
      t - f == (if MonthFromTime(t) >= 2 then DaysInYear(y) else DaysInYear(y - 1)) * MsPerDay
  {
    var d, time := Day(t), TimeWithinDay(t);
    var now := CivilFromDay(d);
    var back := MakeDay(now.year - 1, now.month, now.date);
    assert SetFullYear(t, YearFromTime(t) - 1) == MakeDate(back, time);
    CivilRoundTrip(d);
    PreviousYearDistance(now);
    DateDecomposition(t);
    MakeDateShift(d, back, time);
  }
}

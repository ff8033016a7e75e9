/**
  The analysis page (app/analysis/page.tsx): the `range` search parameter is
  resolved to an optional `{ from, to }` pair of time values, that one value
  is handed to the three aggregation queries, and the page shows either the
  "No Data Yet" view or the statistics and charts.

  The wall clock is the parameter `now`; both `new Date()` calls of the
  source read it.
*/
module Analysis {
  import opened Wrappers
  import opened Calendar

  /** The `{ from, to }` pair handed to the aggregation queries, as time values. */
  datatype DateRange = DateRange(from: int, to: int)

  /** The range tokens that select a bounded range. */
  predicate IsRangeToken(s: string) {
    s == "7d" || s == "30d" || s == "90d" || s == "1y"
  }

  /** The tokens that go back a fixed number of days through `setDate`. */
  predicate IsDayToken(s: string) {
    s == "7d" || s == "30d" || s == "90d"
  }

  /** How many days a day token goes back. */
  function DaysBack(s: string): (n: int)
    requires IsDayToken(s)
    ensures n == 7 || n == 30 || n == 90
  {
    if s == "7d" then 7 else if s == "30d" then 30 else 90
  }

  /**
    getDateRange. An absent or empty parameter and "all" give no range
    (`!range || range === "all"`); "7d", "30d" and "90d" set the date of a
    copy of `now` back by that many days, "1y" sets its full year back by
    one; any other token gives no range (the `default` branch).
  */
  function GetDateRange(range: Option<string>, now: int): (r: Option<DateRange>)
    ensures r.Some? <==> range.Some? && IsRangeToken(range.value)
    ensures r.Some? ==> r.value.to == now
  {
    if range.None? || range.value == "" || range.value == "all" then None
    else if range.value == "7d" then Some(DateRange(SetDate(now, DateFromTime(now) - 7), now))
    else if range.value == "30d" then Some(DateRange(SetDate(now, DateFromTime(now) - 30), now))
    else if range.value == "90d" then Some(DateRange(SetDate(now, DateFromTime(now) - 90), now))
    else if range.value == "1y" then Some(DateRange(SetFullYear(now, YearFromTime(now) - 1), now))
    else None
  }

  /** No parameter and the "all" token both leave the queries unfiltered. */
  lemma AllAndAbsentAreUnbounded(now: int)
    ensures GetDateRange(None, now).None?
    ensures GetDateRange(Some("all"), now).None?
  {}

  /**
    "7d", "30d" and "90d" give a `from` exactly 7, 30 or 90 whole days
    before `now`, whatever month or year boundary lies in between.
  */
  lemma DayTokenGoesBackWholeDays(token: string, now: int)
    requires IsDayToken(token)
    ensures GetDateRange(Some(token), now).Some?
    ensures GetDateRange(Some(token), now).value.from == now - DaysBack(token) * MsPerDay
  {
    SetDateShift(now, DaysBack(token));
  }

  /**
    "1y" gives a `from` in the previous year, on the same month and date and
    at the same time of day; 29 February becomes 1 March when the previous
    year has no 29 February.
  */
  lemma YearTokenSameMonthAndDate(now: int)
    ensures GetDateRange(Some("1y"), now).Some?
    ensures var from := GetDateRange(Some("1y"), now).value.from;
      && YearFromTime(from) == YearFromTime(now) - 1
      && TimeWithinDay(from) == TimeWithinDay(now)
      && (if MonthFromTime(now) == 1 && DateFromTime(now) == 29 && !InLeapYear(YearFromTime(now) - 1)
          then MonthFromTime(from) == 2 && DateFromTime(from) == 1
          else MonthFromTime(from) == MonthFromTime(now) && DateFromTime(from) == DateFromTime(now))
  {
    SetFullYearPrevious(now);
  }

  /** A resolved range spans whole days: the token's days, or 365 or 366 for "1y". */
  lemma RangeSpan(token: string, now: int)
    requires IsRangeToken(token)
    ensures GetDateRange(Some(token), now).Some?
    ensures var r := GetDateRange(Some(token), now).value;
      if IsDayToken(token) then r.to - r.from == DaysBack(token) * MsPerDay
      else r.to - r.from == 365 * MsPerDay || r.to - r.from == 366 * MsPerDay
  {
    if IsDayToken(token) {
      DayTokenGoesBackWholeDays(token, now);
    } else {
      SetFullYearPreviousSpan(now);
    }
  }

  /** Every resolved range starts strictly before it ends. */
  lemma FromBeforeTo(range: Option<string>, now: int)
    ensures var r := GetDateRange(range, now);
      r.Some? ==> r.value.from < r.value.to
  {
    if range.Some? && IsRangeToken(range.value) {
      RangeSpan(range.value, now);
    }
  }

  /** What getTotalSpending reports: its fields are passed through unread except `count`. */
  datatype Totals<M> = Totals(total: M, count: nat, average: M)

  /** The two views AnalyticsContent renders. */
  datatype Content<C, S, M> =
    | NoDataYet
    | Dashboard(total: M, count: nat, average: M, categories: C, timeline: S)

  /**
    AnalyticsContent. The range is resolved once and the same value goes to
    the three queries, which are parameters here; with a zero count the
    "No Data Yet" view is shown, otherwise the statistics and both charts.
  */
  function AnalyticsContent<C, S, M>(
    range: Option<string>, now: int,
    spendingByCategory: Option<DateRange> -> C,
    spendingOverTime: Option<DateRange> -> S,
    totalSpending: Option<DateRange> -> Totals<M>): (p: Content<C, S, M>)
    ensures var dateRange := GetDateRange(range, now);
      && (p.NoDataYet? <==> totalSpending(dateRange).count == 0)
      && (p.Dashboard? ==>
            && p.categories == spendingByCategory(dateRange)
            && p.timeline == spendingOverTime(dateRange)
            && p.count == totalSpending(dateRange).count
            && p.total == totalSpending(dateRange).total
            && p.average == totalSpending(dateRange).average)
  {
    var dateRange := GetDateRange(range, now);
    var categoryData := spendingByCategory(dateRange);
    var timeData := spendingOverTime(dateRange);
    var totals := totalSpending(dateRange);
    var hasData := totals.count > 0;
    if !hasData then NoDataYet
    else Dashboard(totals.total, totals.count, totals.average, categoryData, timeData)
  }
}

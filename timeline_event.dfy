/**
  The grid placement of one event bar (src/components/Timeline/TimelineEvent.tsx): the
  grid has four quarter-month columns per month, and a bar spans the CSS grid lines
  `startColumn / endColumn`, 1-based with the end line exclusive.
*/
module TimelineEvent {
  import opened Types
  import opened DateUtils
  import opened TimelineRange

  /** `getQuarter`: the quarter of the month a day falls in; days 1-8, 9-16, 17-24 and
      25-31 are quarters 0 to 3. */
  function Quarter(day: int): (q: int)
    ensures 1 <= day <= 31 ==> 0 <= q <= 3 && q * 8 < day <= q * 8 + 8
  {
    (day - 1) / 8
  }

  lemma QuarterMonotone(a: int, b: int)
    requires a <= b
    ensures Quarter(a) <= Quarter(b)
  {
  }

  datatype GridSpan = GridSpan(startColumn: int, endColumn: int, isSingleDay: bool)

  /** The bar of an event, or None when the grid has no months (nothing is rendered). */
  function GridColumns(e: Event, months: seq<Month>): (r: Option<GridSpan>)
    requires HasIsoDates(e)
    ensures r.None? <==> months == []
  {
    if months == [] then None
    else
      IsoSplit(e.startDate);
      IsoSplit(e.endDate);
      var startMonthIndex := IndexOfMonth(months, IsoYear(e.startDate), IsoMonth(e.startDate) - 1);
      var endMonthIndex := IndexOfMonth(months, IsoYear(e.endDate), IsoMonth(e.endDate) - 1);
      Some(GridSpan(startMonthIndex * 4 + Quarter(IsoDay(e.startDate)) + 1,
                    endMonthIndex * 4 + Quarter(IsoDay(e.endDate)) + 2,
                    e.startDate == e.endDate))
  }

  /** The two grid lines of a bar on a non-empty grid. */
  lemma GridColumnsValue(e: Event, months: seq<Month>)
    requires HasIsoDates(e) && months != []
    ensures var g := GridColumns(e, months).value;
      var s, t := MonthOf(e.startDate), MonthOf(e.endDate);
      g.startColumn == IndexOfMonth(months, s.year, s.month) * 4 + Quarter(IsoDay(e.startDate)) + 1 &&
      g.endColumn == IndexOfMonth(months, t.year, t.month) * 4 + Quarter(IsoDay(e.endDate)) + 2
  {
  }

  /** A single-day event spans exactly one quarter column. */
  lemma SingleDaySpan(e: Event, months: seq<Month>)
    requires HasIsoDates(e) && months != [] && e.startDate == e.endDate
    ensures GridColumns(e, months).value.isSingleDay
    ensures GridColumns(e, months).value.endColumn == GridColumns(e, months).value.startColumn + 1
  {
  }

  /** With both months in the grid, the bar lies inside the grid lines 1..4*|months|+1. */
  lemma SpanInsideGrid(e: Event, months: seq<Month>)
    requires HasIsoDates(e) && IsCalendarDate(e.startDate) && IsCalendarDate(e.endDate)
    requires MonthOf(e.startDate) in months && MonthOf(e.endDate) in months
    ensures var g := GridColumns(e, months).value;
      1 <= g.startColumn && g.endColumn <= 4 * |months| + 1
  {
  }

  /** A month missing from the grid gives index -1, so the column is at most 0; nothing
      clamps it. */
  lemma MissingMonthColumn(e: Event, months: seq<Month>)
    requires HasIsoDates(e) && IsCalendarDate(e.startDate) && IsCalendarDate(e.endDate) && months != []
    ensures MonthOf(e.startDate) !in months ==> GridColumns(e, months).value.startColumn <= 0
    ensures MonthOf(e.endDate) !in months ==> GridColumns(e, months).value.endColumn <= 1
  {
  }

  /** In a strictly increasing grid, positions follow calendar order. */
  lemma IndexFollowsOrder(months: seq<Month>, a: Month, b: Month)
    requires forall i, j :: 0 <= i < j < |months| ==> MonthBefore(months[i], months[j])
    requires a in months && b in months && MonthBefore(a, b)
    ensures IndexOfMonth(months, a.year, a.month) < IndexOfMonth(months, b.year, b.month)
  {
    var ia, ib := IndexOfMonth(months, a.year, a.month), IndexOfMonth(months, b.year, b.month);
    assert a == Month(a.year, a.month) && b == Month(b.year, b.month);
    assert months[ia] == a && months[ib] == b;
    assert ib != ia;
  }

  /** In a strictly increasing grid holding both months, an event that does not end
      before it starts covers at least one column. */
  lemma SpanNonEmpty(e: Event, months: seq<Month>)
    requires HasIsoDates(e) && IsCalendarDate(e.startDate) && IsCalendarDate(e.endDate)
    requires forall i, j :: 0 <= i < j < |months| ==> MonthBefore(months[i], months[j])
    requires MonthOf(e.startDate) in months && MonthOf(e.endDate) in months
    requires DateKey(e.startDate) <= DateKey(e.endDate)
    ensures var g := GridColumns(e, months).value; g.endColumn >= g.startColumn + 1
  {
    DatesOrderMonths(e);
    var s, t := MonthOf(e.startDate), MonthOf(e.endDate);
    var si, ti := IndexOfMonth(months, s.year, s.month), IndexOfMonth(months, t.year, t.month);
    assert s in months;
    GridColumnsValue(e, months);
    if s == t {
      QuarterMonotone(IsoDay(e.startDate), IsoDay(e.endDate));
    } else {
      IndexFollowsOrder(months, s, t);
      LaterMonthLaterColumn(si, ti, IsoDay(e.startDate), IsoDay(e.endDate));
    }
  }

  /** An event that does not end before it starts ends in its start month, on a day no
      earlier, or in a later month. */
  lemma DatesOrderMonths(e: Event)
    requires HasIsoDates(e) && IsCalendarDate(e.startDate) && IsCalendarDate(e.endDate)
    requires DateKey(e.startDate) <= DateKey(e.endDate)
    ensures 1 <= IsoDay(e.startDate) <= 31 && 1 <= IsoDay(e.endDate) <= 31
    ensures var s, t := MonthOf(e.startDate), MonthOf(e.endDate);
      (s == t && IsoDay(e.startDate) <= IsoDay(e.endDate)) || (s != t && MonthBefore(s, t))
  {
    DateKeyOrder(e.startDate, e.endDate);
  }

  /** A bar ending in a later column than the one it starts in covers that column. */
  lemma LaterMonthLaterColumn(si: int, ti: int, startDay: int, endDay: int)
    requires si < ti && 1 <= startDay <= 31 && 1 <= endDay <= 31
    ensures ti * 4 + Quarter(endDay) + 2 >= si * 4 + Quarter(startDay) + 2
  {
  }

  /** On the grid of a year range, the bar of an event inside the range starts at the
      quarter column of its start day within its start month. */
  lemma SpanOnRangeGrid(e: Event, startYear: int, endYear: int)
    requires HasIsoDates(e) && IsCalendarDate(e.startDate)
    requires startYear <= IsoYear(e.startDate) <= endYear
    ensures var g := GridColumns(e, MonthsRange(startYear, endYear)).value;
      g.startColumn == ((IsoYear(e.startDate) - startYear) * 12 + IsoMonth(e.startDate) - 1) * 4 + Quarter(IsoDay(e.startDate)) + 1
  {
    var ms := MonthsRange(startYear, endYear);
    var m := MonthOf(e.startDate);
    MonthInRange(startYear, endYear, m);
    MonthsRangeOrdered(startYear, endYear);
  }
}

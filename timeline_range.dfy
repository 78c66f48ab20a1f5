/**
  The year range of the timeline and its month grid (src/utils/timelineRange.ts), and
  their composition in `getTimelineRange` (src/utils/dateUtils.ts).
*/
module TimelineRange {
  import opened Types
  import opened DateUtils

  const MIN_YEAR: int := 1900
  const MAX_YEAR: int := 2100
  const DEFAULT_START_YEAR: int := 2014
  const DEFAULT_END_YEAR: int := 2024

  /** The years of every start and end date, in event order. */
  function EventYears(events: seq<Event>): (ys: seq<int>)
    requires AllIsoDates(events)
    ensures |ys| == 2 * |events|
    ensures forall i :: 0 <= i < |events| ==>
      ys[2 * i] == IsoYear(events[i].startDate) && ys[2 * i + 1] == IsoYear(events[i].endDate)
  {
    if events == [] then []
    else [IsoYear(events[0].startDate), IsoYear(events[0].endDate)] + EventYears(events[1..])
  }

  /** `Math.min(...s)`. */
  function MinOf(s: seq<int>): (m: int)
    requires s != []
    ensures m in s && forall i :: 0 <= i < |s| ==> m <= s[i]
  {
    if |s| == 1 then s[0] else Min(s[0], MinOf(s[1..]))
  }

  /** `Math.max(...s)`. */
  function MaxOf(s: seq<int>): (m: int)
    requires s != []
    ensures m in s && forall i :: 0 <= i < |s| ==> s[i] <= m
  {
    if |s| == 1 then s[0] else Max(s[0], MaxOf(s[1..]))
  }

  datatype YearRange = YearRange(startYear: int, endYear: int)

  /** `calculateTimelineRange`. */
  function CalculateTimelineRange(events: seq<Event>): (r: YearRange)
    requires AllIsoDates(events)
    ensures events == [] ==> r == YearRange(DEFAULT_START_YEAR, DEFAULT_END_YEAR)
    ensures r.startYear >= MIN_YEAR && r.endYear <= MAX_YEAR
  {
    if events == [] then YearRange(DEFAULT_START_YEAR, DEFAULT_END_YEAR)
    else
      var ys := EventYears(events);
      var startYear := Max(MIN_YEAR, MinOf(ys));
      var endYear := Min(MAX_YEAR, MaxOf(ys));
      if endYear - startYear < 9 then
        var midYear := (startYear + endYear) / 2;
        YearRange(Max(MIN_YEAR, midYear - 5), Min(MAX_YEAR, midYear + 5))
      else
        YearRange(startYear, endYear)
  }

  /** Every event year in 1900..2100 lies inside the range. */
  lemma RangeCoversEvents(events: seq<Event>)
    requires AllIsoDates(events)
    requires forall i :: 0 <= i < |EventYears(events)| ==> MIN_YEAR <= EventYears(events)[i] <= MAX_YEAR
    ensures var r := CalculateTimelineRange(events);
      forall i :: 0 <= i < |EventYears(events)| ==> r.startYear <= EventYears(events)[i] <= r.endYear
  {
  }

  /** With event years in 1905..2095 the range spans at least ten years. */
  lemma RangeSpansTenYears(events: seq<Event>)
    requires AllIsoDates(events)
    requires forall i :: 0 <= i < |EventYears(events)| ==> 1905 <= EventYears(events)[i] <= 2095
    ensures var r := CalculateTimelineRange(events); r.endYear - r.startYear >= 9
  {
  }

  /** A short span that needs no clamping is widened to five years either side of its
      (rounded down) middle. */
  lemma RangeWidened(events: seq<Event>)
    requires AllIsoDates(events)
    requires events != []
    requires var ys := EventYears(events);
      MIN_YEAR <= MinOf(ys) && MaxOf(ys) <= MAX_YEAR && MaxOf(ys) - MinOf(ys) < 9
    requires var ys := EventYears(events); var mid := (MinOf(ys) + MaxOf(ys)) / 2;
      MIN_YEAR <= mid - 5 && mid + 5 <= MAX_YEAR
    ensures var ys := EventYears(events); var mid := (MinOf(ys) + MaxOf(ys)) / 2;
      CalculateTimelineRange(events) == YearRange(mid - 5, mid + 5)
  {
  }

  /** Events that all lie before 1900 are outside the range, which starts at 1900. */
  lemma RangeMissesEarlyEvents(events: seq<Event>)
    requires AllIsoDates(events)
    requires events != []
    requires forall i :: 0 <= i < |EventYears(events)| ==> EventYears(events)[i] < MIN_YEAR
    ensures var r := CalculateTimelineRange(events);
      r.startYear == MIN_YEAR && forall i :: 0 <= i < |EventYears(events)| ==> EventYears(events)[i] < r.startYear
  {
    var ys := EventYears(events);
    assert MaxOf(ys) in ys;
  }

  /** Events that all lie before 1890 give a range that ends before it starts. */
  lemma RangeInvertedForEarlyEvents(events: seq<Event>)
    requires AllIsoDates(events)
    requires events != []
    requires forall i :: 0 <= i < |EventYears(events)| ==> EventYears(events)[i] < 1890
    ensures var r := CalculateTimelineRange(events); r.startYear > r.endYear
  {
    var ys := EventYears(events);
    assert MaxOf(ys) in ys;
  }

  /** The grid from January of `startYear` to December of `endYear` (`generateMonthsRange`). */
  function MonthsRange(startYear: int, endYear: int): (ms: seq<Month>)
    ensures |ms| == if endYear >= startYear then 12 * (endYear - startYear + 1) else 0
    ensures forall i :: 0 <= i < |ms| ==> ms[i] == Month(startYear + i / 12, i % 12)
    decreases endYear - startYear
  {
    if endYear < startYear then []
    else
      var prev := MonthsRange(startYear, endYear - 1);
      var ms := prev + YearMonths(endYear);
      assert forall i :: |prev| <= i < |ms| ==> i / 12 == endYear - startYear && i % 12 == i - |prev|;
      ms
  }

  /** The twelve months of one year. */
  function YearMonths(year: int): (ms: seq<Month>)
    ensures |ms| == 12 && forall m :: 0 <= m < 12 ==> ms[m] == Month(year, m)
  {
    seq(12, m requires 0 <= m < 12 => Month(year, m))
  }

  /** Calendar order of grid months. */
  predicate MonthBefore(a: Month, b: Month) {
    a.year < b.year || (a.year == b.year && a.month < b.month)
  }

  /** The grid is strictly increasing, hence free of duplicates, starts in January of the
      first year and ends in December of the last, and has months 0..11 only. */
  lemma MonthsRangeOrdered(startYear: int, endYear: int)
    ensures var ms := MonthsRange(startYear, endYear);
      forall i, j :: 0 <= i < j < |ms| ==> MonthBefore(ms[i], ms[j])
    ensures var ms := MonthsRange(startYear, endYear);
      forall i, j :: 0 <= i < j < |ms| ==> ms[i] != ms[j]
    ensures var ms := MonthsRange(startYear, endYear);
      forall i :: 0 <= i < |ms| ==> 0 <= ms[i].month < 12
    ensures startYear <= endYear ==>
      MonthsRange(startYear, endYear)[0] == Month(startYear, 0) &&
      MonthsRange(startYear, endYear)[12 * (endYear - startYear + 1) - 1] == Month(endYear, 11)
  {
    var ms := MonthsRange(startYear, endYear);
    forall i, j | 0 <= i < j < |ms| ensures MonthBefore(ms[i], ms[j]) {
      assert i == 12 * (i / 12) + i % 12 && j == 12 * (j / 12) + j % 12;
    }
    if startYear <= endYear {
      var n := 12 * (endYear - startYear + 1) - 1;
      assert n / 12 == endYear - startYear && n % 12 == 11;
    }
  }

  /** A month of a year inside the range is in the grid, at its calendar offset. */
  lemma MonthInRange(startYear: int, endYear: int, m: Month)
    requires startYear <= m.year <= endYear && 0 <= m.month < 12
    ensures var i := (m.year - startYear) * 12 + m.month;
      0 <= i < |MonthsRange(startYear, endYear)| && MonthsRange(startYear, endYear)[i] == m
  {
    var i := (m.year - startYear) * 12 + m.month;
    assert i / 12 == m.year - startYear && i % 12 == m.month;
  }

  /** `generateMonthsRange`: for each year up to `endYear`, the months 0 to 11. */
  method GenerateMonthsRange(startYear: int, endYear: int) returns (months: seq<Month>)
    ensures months == MonthsRange(startYear, endYear)
  {
    months := [];
    var year := startYear;
    while year <= endYear
      invariant startYear <= year && (year <= endYear + 1 || year == startYear)
      invariant months == MonthsRange(startYear, year - 1)
      decreases endYear - year
    {
      ghost var before := months;
      for month := 0 to 12
        invariant months == before + YearMonths(year)[..month]
      {
        assert YearMonths(year)[..month + 1] == YearMonths(year)[..month] + [Month(year, month)];
        months := months + [Month(year, month)];
      }
      assert YearMonths(year)[..12] == YearMonths(year);
      year := year + 1;
    }
  }

  /** The `months` of `getTimelineRange`: the grid of the computed year range. The
      `startDate` and `endDate` it also returns are JavaScript `Date` objects. */
  method GetTimelineMonths(events: seq<Event>) returns (months: seq<Month>)
    requires AllIsoDates(events)
    ensures months == MonthsRange(CalculateTimelineRange(events).startYear, CalculateTimelineRange(events).endYear)
  {
    var range := CalculateTimelineRange(events);
    months := GenerateMonthsRange(range.startYear, range.endYear);
  }

  /** When every event year is in 1900..2100 and every month is 01..12, the month of every
      start and end date is in the grid of `getTimelineRange`. */
  lemma GridHoldsEventMonths(events: seq<Event>)
    requires AllIsoDates(events)
    requires forall i :: 0 <= i < |EventYears(events)| ==> MIN_YEAR <= EventYears(events)[i] <= MAX_YEAR
    requires forall i :: 0 <= i < |events| ==>
      1 <= IsoMonth(events[i].startDate) <= 12 && 1 <= IsoMonth(events[i].endDate) <= 12
    ensures var r := CalculateTimelineRange(events); var ms := MonthsRange(r.startYear, r.endYear);
      forall i :: 0 <= i < |events| ==> MonthOf(events[i].startDate) in ms && MonthOf(events[i].endDate) in ms
  {
    var r := CalculateTimelineRange(events);
    var ys := EventYears(events);
    RangeCoversEvents(events);
    forall i | 0 <= i < |events|
      ensures MonthOf(events[i].startDate) in MonthsRange(r.startYear, r.endYear)
      ensures MonthOf(events[i].endDate) in MonthsRange(r.startYear, r.endYear)
    {
      assert ys[2 * i] == IsoYear(events[i].startDate) && ys[2 * i + 1] == IsoYear(events[i].endDate);
      MonthInRange(r.startYear, r.endYear, MonthOf(events[i].startDate));
      MonthInRange(r.startYear, r.endYear, MonthOf(events[i].endDate));
    }
  }
}

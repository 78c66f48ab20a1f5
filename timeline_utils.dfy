/**
  The scroll and position helpers of the timeline (src/utils/timelineUtils.ts): the
  unique years of the month grid, the share of the grid each year takes, the pixel span
  of a month, the month under the scroll indicator line, and the year-range caption.
  Pixel positions are real numbers; IEEE rounding is not modelled.
*/
module TimelineUtils {
  import opened Types
  import opened Strings
  import opened DateUtils
  import opened TimelineRange

  // ---------------------------------------------------------------------------
  // getUniqueYears
  // ---------------------------------------------------------------------------

  /** `months.map(month => month.year)`. */
  function YearsOf(months: seq<Month>): (ys: seq<int>)
    ensures |ys| == |months|
    ensures forall i :: 0 <= i < |months| ==> ys[i] == months[i].year
  {
    if months == [] then [] else [months[0].year] + YearsOf(months[1..])
  }

  predicate Distinct(s: seq<int>) {
    forall i, j :: 0 <= i < j < |s| ==> s[i] != s[j]
  }

  /** `Array.from(new Set(s))`: the first occurrence of each value, in order of first
      occurrence. */
  function Dedup(s: seq<int>): (d: seq<int>)
    ensures Distinct(d)
    ensures forall x :: x in d <==> x in s
    ensures |d| <= |s|
  {
    if s == [] then []
    else
      var d := Dedup(s[..|s| - 1]);
      assert s == s[..|s| - 1] + [s[|s| - 1]];
      if s[|s| - 1] in d then d else d + [s[|s| - 1]]
  }

  /** The order of the default `Array.prototype.sort`: by the decimal strings. */
  predicate YearLess(a: int, b: int) {
    LexLess(IntToString(a), IntToString(b))
  }

  lemma YearLessTotal(a: int, b: int)
    requires a != b
    ensures YearLess(a, b) || YearLess(b, a)
  {
    if IntToString(a) == IntToString(b) {
      IntToStringInjective(a, b);
    }
    LexLessTotal(IntToString(a), IntToString(b));
  }

  predicate SortedByString(s: seq<int>) {
    forall i, j :: 0 <= i < j < |s| ==> YearLess(s[i], s[j])
  }

  /** `x` placed in front of the first element of `s` that it precedes. */
  function InsertByString(x: int, s: seq<int>): (r: seq<int>)
    requires SortedByString(s) && x !in s
    ensures |r| == |s| + 1
    ensures forall y :: y in r <==> y == x || y in s
    ensures SortedByString(r)
    ensures r[0] == x || (s != [] && r[0] == s[0])
  {
    if s == [] || YearLess(x, s[0]) then
      ConsSortedByString(x, s);
      [x] + s
    else
      YearLessTotal(x, s[0]);
      var t := InsertByString(x, s[1..]);
      assert YearLess(s[0], t[0]);
      ConsSortedByString(s[0], t);
      [s[0]] + t
  }

  /** A value that precedes the head of a sorted list keeps it sorted in front. */
  lemma ConsSortedByString(y: int, t: seq<int>)
    requires SortedByString(t) && (t != [] ==> YearLess(y, t[0]))
    ensures SortedByString([y] + t)
  {
    forall a, b, c | YearLess(a, b) && YearLess(b, c) ensures YearLess(a, c) {
      YearLessTransitive(a, b, c);
    }
    ConsChain(y, t, YearLess);
  }

  /** The same for any transitive order. */
  lemma ConsChain<T>(y: T, t: seq<T>, less: (T, T) -> bool)
    requires forall a, b, c :: less(a, b) && less(b, c) ==> less(a, c)
    requires forall i, j :: 0 <= i < j < |t| ==> less(t[i], t[j])
    requires t != [] ==> less(y, t[0])
    ensures forall i, j :: 0 <= i < j < |[y] + t| ==> less(([y] + t)[i], ([y] + t)[j])
  {
    var r := [y] + t;
    forall i, j | 0 <= i < j < |r| ensures less(r[i], r[j]) {
      if i > 0 {
        assert r[i] == t[i - 1] && r[j] == t[j - 1];
      } else if j > 1 {
        assert r[j] == t[j - 1] && less(t[0], t[j - 1]);
      }
    }
  }

  lemma YearLessTransitive(a: int, b: int, c: int)
    requires YearLess(a, b) && YearLess(b, c)
    ensures YearLess(a, c)
  {
    LexLessTransitive(IntToString(a), IntToString(b), IntToString(c));
  }

  /** `.sort()` of a list without repeated values. */
  function SortByString(s: seq<int>): (r: seq<int>)
    requires Distinct(s)
    ensures |r| == |s|
    ensures forall y :: y in r <==> y in s
    ensures SortedByString(r)
  {
    if s == [] then []
    else
      assert s[0] !in s[1..];
      InsertByString(s[0], SortByString(s[1..]))
  }

  /** Strict string order leaves no room for a repeated value. */
  lemma SortedByStringDistinct(s: seq<int>)
    requires SortedByString(s)
    ensures Distinct(s)
  {
    forall i, j | 0 <= i < j < |s| ensures s[i] != s[j] {
      LexLessIrreflexive(IntToString(s[i]));
    }
  }

  /** `getUniqueYears`. */
  function UniqueYears(months: seq<Month>): (ys: seq<int>)
    ensures forall y :: y in ys <==> exists i :: 0 <= i < |months| && months[i].year == y
    ensures Distinct(ys)
    ensures SortedByString(ys)
  {
    var years := YearsOf(months);
    var ys := SortByString(Dedup(years));
    forall y | y in ys ensures exists i :: 0 <= i < |months| && months[i].year == y {
      var i :| 0 <= i < |years| && years[i] == y;
      assert months[i].year == y;
    }
    forall y | exists i :: 0 <= i < |months| && months[i].year == y ensures y in ys {
      var i :| 0 <= i < |months| && months[i].year == y;
      assert years[i] == y;
    }
    SortedByStringDistinct(ys);
    ys
  }

  /** With four-digit years the string order is the numeric order, so the unique years
      are ascending. */
  lemma {:induction false} UniqueYearsAscending(months: seq<Month>)
    requires forall i :: 0 <= i < |months| ==> 1000 <= months[i].year <= 9999
    ensures var ys := UniqueYears(months);
      forall i, j :: 0 <= i < j < |ys| ==> ys[i] < ys[j]
  {
    var ys := UniqueYears(months);
    forall i, j | 0 <= i < j < |ys| ensures ys[i] < ys[j] {
      var a, b := ys[i], ys[j];
      assert a in ys && b in ys;
      NatToStringLength(a);
      NatToStringLength(b);
      LexLessDigits(NatToString(a), NatToString(b));
    }
  }

  /** The default sort is not numeric: a year 999 sorts after 1000. */
  lemma UniqueYearsOfMixedWidths()
    ensures UniqueYears([Month(999, 0), Month(1000, 0)]) == [1000, 999]
  {
    MixedYears();
    MixedDedup();
    MixedSort();
  }

  lemma MixedYears()
    ensures YearsOf([Month(999, 0), Month(1000, 0)]) == [999, 1000]
  {
    var ms := [Month(999, 0), Month(1000, 0)];
    assert YearsOf(ms[1..]) == [1000];
  }

  lemma MixedDedup()
    ensures Dedup([999, 1000]) == [999, 1000]
  {
    assert [999, 1000][..1] == [999];
    assert Dedup([999]) == [999];
  }

  lemma MixedSort()
    ensures SortByString([999, 1000]) == [1000, 999]
  {
    assert SortByString([1000]) == [1000];
    LaterByString();
    assert InsertByString(999, [1000]) == [1000] + InsertByString(999, []);
  }

  /** "1000" precedes "999" as text. */
  lemma LaterByString()
    ensures !YearLess(999, 1000)
  {
    assert NatToString(999) == "999" by {
      assert NatToString(99) == "99";
    }
    assert NatToString(1000) == "1000" by {
      assert NatToString(100) == "100";
    }
  }

  // ---------------------------------------------------------------------------
  // getMonthsInYear and calculateYearWidth
  // ---------------------------------------------------------------------------

  /** `getMonthsInYear`: the months of `year`, in grid order. */
  function MonthsInYear(months: seq<Month>, year: int): (r: seq<Month>)
    ensures |r| <= |months|
    ensures forall m :: m in r <==> m in months && m.year == year
  {
    if months == [] then []
    else (if months[0].year == year then [months[0]] else []) + MonthsInYear(months[1..], year)
  }

  lemma {:induction false} MonthsInYearAppend(a: seq<Month>, b: seq<Month>, year: int)
    ensures MonthsInYear(a + b, year) == MonthsInYear(a, year) + MonthsInYear(b, year)
  {
    if a == [] {
      assert a + b == b;
    } else {
      assert (a + b)[1..] == a[1..] + b;
      MonthsInYearAppend(a[1..], b, year);
    }
  }

  /** Every year of a month range takes twelve columns. */
  lemma {:induction false} MonthsInYearOfRange(startYear: int, endYear: int, year: int)
    requires startYear <= year <= endYear
    ensures MonthsInYear(MonthsRange(startYear, endYear), year) == YearMonths(year)
    decreases endYear - startYear
  {
    if year == endYear {
      LastYearOfRange(startYear, endYear);
    } else {
      EarlierYearOfRange(startYear, endYear, year);
      MonthsInYearOfRange(startYear, endYear - 1, year);
    }
  }

  lemma LastYearOfRange(startYear: int, endYear: int)
    requires startYear <= endYear
    ensures MonthsInYear(MonthsRange(startYear, endYear), endYear) == YearMonths(endYear)
  {
    var prev := MonthsRange(startYear, endYear - 1);
    var ym := YearMonths(endYear);
    assert MonthsRange(startYear, endYear) == prev + ym;
    MonthsInYearAppend(prev, ym, endYear);
    RangeYearsAtMost(startYear, endYear - 1);
    MonthsBeforeYear(prev, endYear);
    MonthsAllOfYear(ym, endYear);
  }

  lemma {:induction false} MonthsBeforeYear(months: seq<Month>, year: int)
    requires forall m :: m in months ==> m.year < year
    ensures MonthsInYear(months, year) == []
  {
    if months != [] {
      assert months[0] in months;
      assert forall m :: m in months[1..] ==> m in months;
      MonthsBeforeYear(months[1..], year);
    }
  }

  lemma EarlierYearOfRange(startYear: int, endYear: int, year: int)
    requires startYear <= year < endYear
    ensures MonthsInYear(MonthsRange(startYear, endYear), year) == MonthsInYear(MonthsRange(startYear, endYear - 1), year)
  {
    var prev := MonthsRange(startYear, endYear - 1);
    var ym := YearMonths(endYear);
    assert MonthsRange(startYear, endYear) == prev + ym;
    MonthsInYearAppend(prev, ym, year);
    MonthsOfOtherYears(ym, year);
    assert MonthsInYear(prev, year) + [] == MonthsInYear(prev, year);
  }

  /** No month of a range lies after its last year. */
  lemma {:induction false} RangeYearsAtMost(startYear: int, endYear: int)
    ensures forall m :: m in MonthsRange(startYear, endYear) ==> m.year <= endYear
    decreases endYear - startYear
  {
    if endYear >= startYear {
      var prev := MonthsRange(startYear, endYear - 1);
      RangeYearsAtMost(startYear, endYear - 1);
      assert MonthsRange(startYear, endYear) == prev + YearMonths(endYear);
      forall m | m in YearMonths(endYear) ensures m.year == endYear {
        var k :| 0 <= k < 12 && YearMonths(endYear)[k] == m;
      }
    }
  }

  lemma {:induction false} MonthsOfOtherYears(months: seq<Month>, year: int)
    requires forall i :: 0 <= i < |months| ==> months[i].year != year
    ensures MonthsInYear(months, year) == []
  {
    if months != [] {
      MonthsOfOtherYears(months[1..], year);
    }
  }

  lemma {:induction false} MonthsAllOfYear(months: seq<Month>, year: int)
    requires forall i :: 0 <= i < |months| ==> months[i].year == year
    ensures MonthsInYear(months, year) == months
  {
    if months != [] {
      MonthsAllOfYear(months[1..], year);
      assert months == [months[0]] + months[1..];
    }
  }

  /** `calculateYearWidth`: the percentage of the grid's columns that lie in `year`. */
  function YearWidth(months: seq<Month>, year: int): (w: real)
    requires months != []
    ensures 0.0 <= w <= 100.0
  {
    var k := |MonthsInYear(months, year)| as real;
    var n := |months| as real;
    ShareBound(k, n);
    (k / n) * 100.0
  }

  lemma ShareBound(k: real, n: real)
    requires 0.0 <= k <= n && n > 0.0
    ensures 0.0 <= (k / n) * 100.0 <= 100.0
  {
    assert k / n <= 1.0 by {
      assert (k / n) * n == k;
    }
  }

  /** The widths of the years in `ys`, summed. */
  function WidthSum(months: seq<Month>, ys: seq<int>): real
    requires months != []
  {
    if ys == [] then 0.0 else YearWidth(months, ys[0]) + WidthSum(months, ys[1..])
  }

  /** The months of the years in `ys`, counted. */
  function MonthCount(months: seq<Month>, ys: seq<int>): nat {
    if ys == [] then 0 else |MonthsInYear(months, ys[0])| + MonthCount(months, ys[1..])
  }

  lemma {:induction false} WidthSumIsShare(months: seq<Month>, ys: seq<int>)
    requires months != []
    ensures WidthSum(months, ys) == (MonthCount(months, ys) as real / |months| as real) * 100.0
  {
    if ys != [] {
      WidthSumIsShare(months, ys[1..]);
      var n := |months| as real;
      var a := |MonthsInYear(months, ys[0])| as real;
      var b := MonthCount(months, ys[1..]) as real;
      AddShares(a, b, n);
    }
  }

  lemma AddShares(a: real, b: real, n: real)
    requires n > 0.0
    ensures (a / n) * 100.0 + (b / n) * 100.0 == ((a + b) / n) * 100.0
  {
    assert a / n + b / n == (a + b) / n;
  }

  /** Occurrences of `y` in `ys`. */
  function Occurrences(ys: seq<int>, y: int): nat {
    if ys == [] then 0 else (if ys[0] == y then 1 else 0) + Occurrences(ys[1..], y)
  }

  lemma {:induction false} OccurrencesDistinct(ys: seq<int>, y: int)
    requires Distinct(ys)
    ensures Occurrences(ys, y) == if y in ys then 1 else 0
  {
    if ys != [] {
      assert Distinct(ys[1..]);
      OccurrencesDistinct(ys[1..], y);
      assert ys == [ys[0]] + ys[1..];
    }
  }

  lemma {:induction false} MonthCountCons(m: Month, rest: seq<Month>, ys: seq<int>)
    ensures MonthCount([m] + rest, ys) == Occurrences(ys, m.year) + MonthCount(rest, ys)
  {
    if ys != [] {
      MonthCountCons(m, rest, ys[1..]);
      assert ([m] + rest)[1..] == rest;
    }
  }

  /** Counting the months of each of a set of distinct years that covers the grid counts
      every column once. */
  lemma {:induction false} MonthCountCovers(months: seq<Month>, ys: seq<int>)
    requires Distinct(ys)
    requires forall i :: 0 <= i < |months| ==> months[i].year in ys
    ensures MonthCount(months, ys) == |months|
  {
    if months == [] {
      MonthCountEmpty(ys);
    } else {
      assert months == [months[0]] + months[1..];
      MonthCountCons(months[0], months[1..], ys);
      OccurrencesDistinct(ys, months[0].year);
      MonthCountCovers(months[1..], ys);
    }
  }

  lemma {:induction false} MonthCountEmpty(ys: seq<int>)
    ensures MonthCount([], ys) == 0
  {
    if ys != [] {
      MonthCountEmpty(ys[1..]);
    }
  }

  /** Over the unique years of a non-empty grid the year widths add up to 100. */
  lemma YearWidthsSumTo100(months: seq<Month>)
    requires months != []
    ensures WidthSum(months, UniqueYears(months)) == 100.0
  {
    var ys := UniqueYears(months);
    UniqueYearsCover(months);
    MonthCountCovers(months, ys);
    WidthSumIsShare(months, ys);
    WholeShare(|months|);
  }

  lemma UniqueYearsCover(months: seq<Month>)
    ensures forall i :: 0 <= i < |months| ==> months[i].year in UniqueYears(months)
  {
    var ys := UniqueYears(months);
    forall i | 0 <= i < |months| ensures months[i].year in ys {
      var y := months[i].year;
      assert 0 <= i < |months| && months[i].year == y;
    }
  }

  lemma WholeShare(n: nat)
    requires n > 0
    ensures (n as real / n as real) * 100.0 == 100.0
  {
  }

  // ---------------------------------------------------------------------------
  // getMonthPosition
  // ---------------------------------------------------------------------------

  datatype Span = Span(start: real, end: real)

  /** `getMonthPosition`: the pixel span of column `monthIndex` when `totalMonths`
      columns share `contentWidth` pixels. */
  function MonthPosition(monthIndex: int, totalMonths: int, contentWidth: real): (p: Span)
    requires totalMonths != 0
    ensures p.end - p.start == contentWidth / totalMonths as real
  {
    var monthWidth := contentWidth / totalMonths as real;
    Span(monthIndex as real * monthWidth, (monthIndex + 1) as real * monthWidth)
  }

  /** Consecutive months abut, and the grid's columns run from 0 to `contentWidth`. */
  lemma MonthPositionsTile(i: int, totalMonths: int, contentWidth: real)
    requires totalMonths != 0
    ensures MonthPosition(i, totalMonths, contentWidth).end == MonthPosition(i + 1, totalMonths, contentWidth).start
    ensures MonthPosition(0, totalMonths, contentWidth).start == 0.0
    ensures MonthPosition(totalMonths - 1, totalMonths, contentWidth).end == contentWidth
  {
    var n := totalMonths as real;
    assert n * (contentWidth / n) == contentWidth;
  }

  // ---------------------------------------------------------------------------
  // getCurrentTimelinePosition
  // ---------------------------------------------------------------------------

  const DEFAULT_LABEL_WIDTH: real := 120.0

  /** The column index under the indicator: the column it falls into, but no further
      than the last one; there is no lower bound. */
  function CurrentIndex(indicator: real, totalMonths: nat, contentWidth: real): (k: int)
    requires totalMonths > 0 && contentWidth > 0.0
    ensures k <= totalMonths - 1
    ensures k >= 0 <==> indicator >= 0.0
    ensures k < totalMonths - 1 ==>
      MonthPosition(k, totalMonths, contentWidth).start <= indicator < MonthPosition(k, totalMonths, contentWidth).end
    ensures k == totalMonths - 1 ==> MonthPosition(k, totalMonths, contentWidth).start <= indicator
    ensures indicator < contentWidth ==> indicator < MonthPosition(k, totalMonths, contentWidth).end
    ensures indicator >= contentWidth ==> k == totalMonths - 1
  {
    var monthWidth := contentWidth / totalMonths as real;
    var f := (indicator / monthWidth).Floor;
    var k := Min(f, totalMonths - 1);
    CurrentIndexFacts(indicator, totalMonths, contentWidth, f, k);
    k
  }

  /** The postconditions of `CurrentIndex`, with the column spans unfolded. */
  lemma CurrentIndexFacts(indicator: real, totalMonths: nat, contentWidth: real, f: int, k: int)
    requires totalMonths > 0 && contentWidth > 0.0
    requires f == (indicator / (contentWidth / totalMonths as real)).Floor && k == Min(f, totalMonths - 1)
    ensures k >= 0 <==> indicator >= 0.0
    ensures k < totalMonths - 1 ==>
      MonthPosition(k, totalMonths, contentWidth).start <= indicator < MonthPosition(k, totalMonths, contentWidth).end
    ensures k == totalMonths - 1 ==> MonthPosition(k, totalMonths, contentWidth).start <= indicator
    ensures indicator < contentWidth ==> indicator < MonthPosition(k, totalMonths, contentWidth).end
    ensures indicator >= contentWidth ==> k == totalMonths - 1
  {
    var w := contentWidth / totalMonths as real;
    FloorBounds(indicator, w, f);
    PastEndClamped(indicator, totalMonths, contentWidth, f);
    var p := MonthPosition(k, totalMonths, contentWidth);
    assert p.start == k as real * w && p.end == (k + 1) as real * w;
    TotalWidth(totalMonths, contentWidth);
    ClampedIndex(indicator, w, totalMonths, f, k);
  }

  /** The columns together are `contentWidth` wide. */
  lemma TotalWidth(totalMonths: nat, contentWidth: real)
    requires totalMonths > 0
    ensures totalMonths as real * (contentWidth / totalMonths as real) == contentWidth
  {
  }

  /** Clamping the column of the indicator to the last column, on plain numbers. */
  lemma ClampedIndex(indicator: real, w: real, n: int, f: int, k: int)
    requires w > 0.0 && n > 0 && k == Min(f, n - 1)
    requires f as real * w <= indicator < (f + 1) as real * w
    requires f >= 0 <==> indicator >= 0.0
    requires indicator >= n as real * w ==> f >= n
    ensures k >= 0 <==> indicator >= 0.0
    ensures k < n - 1 ==> k as real * w <= indicator < (k + 1) as real * w
    ensures k == n - 1 ==> k as real * w <= indicator
    ensures indicator < n as real * w ==> indicator < (k + 1) as real * w
    ensures indicator >= n as real * w ==> k == n - 1
  {
    if k < f {
      MultiplyBelow(k as real, f as real, w);
    }
  }

  /** An indicator at or past the end of the grid falls beyond the last column. */
  lemma PastEndClamped(indicator: real, totalMonths: nat, contentWidth: real, f: int)
    requires totalMonths > 0 && contentWidth > 0.0
    requires var w := contentWidth / totalMonths as real; indicator < (f + 1) as real * w
    ensures indicator >= contentWidth ==> f >= totalMonths
  {
    var w := contentWidth / totalMonths as real;
    assert totalMonths as real * w == contentWidth;
    if indicator >= contentWidth && f + 1 <= totalMonths {
      MultiplyBelow((f + 1) as real, totalMonths as real, w);
    }
  }

  lemma FloorBounds(x: real, w: real, f: int)
    requires w > 0.0 && f == (x / w).Floor
    ensures f as real * w <= x < (f + 1) as real * w
    ensures f >= 0 <==> x >= 0.0
  {
    var q := x / w;
    assert q * w == x;
    assert f as real <= q < (f + 1) as real;
    MultiplyBelow(f as real, q, w);
    MultiplyBelow(q, (f + 1) as real, w);
    assert q * w < (f + 1) as real * w;
  }

  lemma MultiplyBelow(a: real, b: real, w: real)
    requires w > 0.0 && a <= b
    ensures a * w <= b * w
    ensures a < b ==> a * w < b * w
  {
  }

  /** What the scroll indicator reads off the grid. */
  datatype Position = Position(currentMonth: Month, nextMonth: Option<Month>, isDecemberEnding: bool)

  /** `getCurrentTimelinePosition`. A negative index (an empty grid, or an indicator left
      of the grid) reads past the array and the source dereferences `undefined`; that
      failure is `None` here. */
  function CurrentPosition(scrollLeft: real, months: seq<Month>, contentWidth: real, labelWidth: real): (r: Option<Position>)
    requires contentWidth > 0.0
    ensures r.None? <==> months == [] || scrollLeft + labelWidth < 0.0
    ensures r.Some? ==>
      var k := CurrentIndex(scrollLeft + labelWidth, |months|, contentWidth);
      0 <= k < |months| && r.value.currentMonth == months[k] &&
      (r.value.nextMonth.None? <==> k == |months| - 1) &&
      (r.value.nextMonth.Some? ==> r.value.nextMonth.value == months[k + 1])
    ensures r.Some? ==>
      (r.value.isDecemberEnding <==>
        scrollLeft + labelWidth >= contentWidth && months[|months| - 1].month == 11)
  {
    var indicator := scrollLeft + labelWidth;
    if months == [] then None
    else
      var k := CurrentIndex(indicator, |months|, contentWidth);
      if k < 0 then None
      else
        var currentMonth := months[k];
        var nextMonth := if k < |months| - 1 then Some(months[k + 1]) else None;
        var position := MonthPosition(k, |months|, contentWidth);
        MonthPositionsTile(|months| - 1, |months|, contentWidth);
        Some(Position(currentMonth, nextMonth, currentMonth.month == 11 && indicator >= position.end))
  }

  /** On a grid of whole years the December flag is raised exactly when the indicator is
      past the end of the grid. */
  lemma DecemberEndingOnRange(scrollLeft: real, startYear: int, endYear: int, contentWidth: real, labelWidth: real)
    requires contentWidth > 0.0 && startYear <= endYear && scrollLeft + labelWidth >= 0.0
    ensures var r := CurrentPosition(scrollLeft, MonthsRange(startYear, endYear), contentWidth, labelWidth);
      r.Some? && (r.value.isDecemberEnding <==> scrollLeft + labelWidth >= contentWidth)
  {
    MonthsRangeOrdered(startYear, endYear);
  }

  /** `displayYear` of the scroll indicator (src/components/Timeline/TimelineScrollIndicator.tsx):
      the next year once December has been fully crossed. */
  function DisplayYear(p: Position): (y: int)
    ensures y == p.currentMonth.year || (p.isDecemberEnding && y == p.currentMonth.year + 1)
  {
    if p.isDecemberEnding then p.currentMonth.year + 1 else p.currentMonth.year
  }

  /** Past the end of a grid of whole years the indicator shows the year after the last. */
  lemma DisplayYearPastEnd(scrollLeft: real, startYear: int, endYear: int, contentWidth: real, labelWidth: real)
    requires contentWidth > 0.0 && startYear <= endYear && scrollLeft + labelWidth >= contentWidth
    ensures var r := CurrentPosition(scrollLeft, MonthsRange(startYear, endYear), contentWidth, labelWidth);
      r.Some? && DisplayYear(r.value) == endYear + 1
  {
    MonthsRangeOrdered(startYear, endYear);
  }

  /** Inside the grid the indicator shows the year of the column it is over. */
  lemma DisplayYearInside(scrollLeft: real, months: seq<Month>, contentWidth: real, labelWidth: real)
    requires contentWidth > 0.0 && months != [] && 0.0 <= scrollLeft + labelWidth < contentWidth
    ensures var r := CurrentPosition(scrollLeft, months, contentWidth, labelWidth);
      var k := CurrentIndex(scrollLeft + labelWidth, |months|, contentWidth);
      r.Some? && DisplayYear(r.value) == months[k].year &&
      MonthPosition(k, |months|, contentWidth).start <= scrollLeft + labelWidth < MonthPosition(k, |months|, contentWidth).end
  {
  }

  // ---------------------------------------------------------------------------
  // getTimelineYearRange
  // ---------------------------------------------------------------------------

  const EN_DASH: char := '–'

  /** `getTimelineYearRange`: the current year for no events, one year when all start and
      end years agree, otherwise the earliest and latest year joined by an en dash. The
      current year comes from the clock and is a parameter here. */
  function TimelineYearRange(events: seq<Event>, currentYear: int): (r: string)
    requires AllIsoDates(events)
    ensures events == [] ==> r == IntToString(currentYear)
    ensures events != [] ==>
      var ys := EventYears(events);
      (forall i, j :: 0 <= i < |ys| && 0 <= j < |ys| ==> ys[i] == ys[j]) ==> r == IntToString(ys[0])
  {
    if events == [] then IntToString(currentYear)
    else
      var years := EventYears(events);
      var startYear := MinOf(years);
      var endYear := MaxOf(years);
      if startYear == endYear then IntToString(startYear)
      else
        assert MinOf(years) in years && MaxOf(years) in years;
        IntToString(startYear) + [EN_DASH] + IntToString(endYear)
  }

  lemma IntToStringNoDash(i: int)
    ensures EN_DASH !in IntToString(i)
  {
    var r := IntToString(i);
    if i >= 0 {
      assert forall k :: 0 <= k < |r| ==> IsDigit(r[k]);
    } else {
      var t := NatToString(-i);
      assert forall k :: 0 <= k < |t| ==> IsDigit(t[k]);
      assert forall k :: 1 <= k < |r| ==> r[k] == t[k - 1];
    }
  }

  /** The caption splits at the en dash back into the earliest and the latest year, and
      has a dash exactly when those differ. */
  lemma YearRangeCaption(events: seq<Event>)
    requires AllIsoDates(events) && events != []
    ensures var ys := EventYears(events); var r := TimelineYearRange(events, 0);
      (EN_DASH in r <==> MinOf(ys) != MaxOf(ys)) &&
      (MinOf(ys) == MaxOf(ys) ==> Split(r, EN_DASH) == [IntToString(MinOf(ys))]) &&
      (MinOf(ys) != MaxOf(ys) ==> Split(r, EN_DASH) == [IntToString(MinOf(ys)), IntToString(MaxOf(ys))])
  {
    var ys := EventYears(events);
    var a, b := IntToString(MinOf(ys)), IntToString(MaxOf(ys));
    IntToStringNoDash(MinOf(ys));
    IntToStringNoDash(MaxOf(ys));
    if MinOf(ys) == MaxOf(ys) {
      SplitOfSeparatorFree(a, EN_DASH);
    } else {
      Join3Pair(a, b, EN_DASH);
      SplitUnique([a, b], EN_DASH);
    }
  }

  lemma Join3Pair(a: string, b: string, sep: char)
    ensures Join([a, b], [sep]) == a + [sep] + b
  {
  }
}

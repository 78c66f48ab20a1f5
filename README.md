# Timeline Academy core in Dafny

Timeline Academy is a web application for drawing personal timelines. Events have a
title, a start and an end date and a category. They are laid out in one horizontal lane
per category over a grid of months. The events can be imported from CSV or
spreadsheet files, exported back to CSV, edited in a form or in a table, and saved to a
server. This project models the application's logic and proves properties of it:

- **Layout.**
  - The year range and month grid.
  - The first-fit row stacker, with its title-width spans.
  - The quarter-month grid columns of an event.
  - The lane composer (heights and offsets).
  - The older overlap-based height estimator.
  - The scroll and position helpers, whose positions are `real`.
- **Codecs.**
  - `normalizeDate`, `isValidDateFormat` and `formatDateForCSV` (on any text).
  - The quote-aware CSV line splitter, `normalizeCategory` and CSV event import.
  - The CSV template and CSV export, with the export-then-import round trip.
  - The spreadsheet row validation.
- **Save.** The insert, update and delete classification, with an abstract apply step.
- **State editors.** Each is a class whose fields are the React state and whose
  methods are the handlers and effects:
  - the event list;
  - the category list and category manager;
  - the table editor;
  - the event form;
  - dirty tracking;
  - the title.

The model follows the code. Dates are the strings events carry. Where the layout code
reads numbers out of them, it reads "YYYY-MM-DD" by position. Random ids are
parameters, and `alert`s become returned values.

The files, one module each:

| file | module |
|---|---|
| `types.dfy` | `Types`: records, constants, small helpers |
| `strings.dfy` | `Strings`: JavaScript string operations |
| `dates.dfy` | `DateUtils` |
| `timeline_range.dfy` | `TimelineRange` |
| `sorting.dfy` | `Sorting`: the stable sort |
| `event_stacking.dfy` | `EventStacking` |
| `timeline_event.dfy` | `TimelineEvent` |
| `timeline_layout.dfy` | `TimelineLayout` |
| `category_heights.dfy` | `CategoryHeights` |
| `timeline_utils.dfy` | `TimelineUtils` |
| `csv_parser.dfy` | `CsvParser` |
| `mismatches.dfy` | `Mismatches`: the category-mismatch `Map` |
| `csv_events.dfy` | `CsvEvents` |
| `csv_template.dfy` | `CsvTemplate` |
| `csv_export.dfy` | `CsvExport` |
| `excel_import.dfy` | `ExcelImport` |
| `save_events.dfy` | `SaveEvents` |
| `use_events.dfy` | `UseEvents` |
| `use_categories.dfy` | `UseCategories` |
| `category_manager.dfy` | `CategoryManagerModel` |
| `event_table_editor.dfy` | `EventTableEditorModel` |
| `event_form.dfy` | `EventFormModel` |
| `use_timeline_changes.dfy` | `UseTimelineChanges` |
| `use_timeline_title.dfy` | `UseTimelineTitle` |

## Model

| member | source | states |
|---|---|---|
| Types.DataOfAll | src/types/event.ts:1-7 | one `Omit<TimelineEvent, 'id'>` per event, in order |
| Types.IndexOfMonth | src/components/Timeline/TimelineEvent.tsx:33-34 | `findIndex` on the months: the first position holding the month, -1 exactly when it is absent |
| Types.ScaleOf | src/constants/scales.ts:3-14 | each scale carries its own name, and its month is four quarters wide |
| TimelineRange.EventYears | src/utils/timelineRange.ts:18-21 | the start and the end year of every event, two per event |
| TimelineRange.MinOf | src/utils/timelineRange.ts:25 | `Math.min(...)`: an element no greater than any other |
| TimelineRange.MaxOf | src/utils/timelineRange.ts:30 | `Math.max(...)`: an element no smaller than any other |
| TimelineRange.CalculateTimelineRange | src/utils/timelineRange.ts:9-41 | no events give 2014..2024, and every result starts at 1900 or later and ends at 2100 or earlier |
| TimelineRange.RangeCoversEvents | src/utils/timelineRange.ts:23-38 | when every event year is in 1900..2100, the range contains all of them |
| TimelineRange.RangeSpansTenYears | src/utils/timelineRange.ts:34-38 | when every event year is in 1905..2095, the range spans at least ten years |
| TimelineRange.RangeWidened | src/utils/timelineRange.ts:34-38 | a span shorter than nine years becomes mid-5..mid+5 around the floored midpoint, when no clamp applies |
| TimelineRange.RangeMissesEarlyEvents | src/utils/timelineRange.ts:23-26 | years all before 1900 give a range starting at 1900, so every event lies before it |
| TimelineRange.RangeInvertedForEarlyEvents | src/utils/timelineRange.ts:23-38 | years all before 1890 give a start after the end |
| TimelineRange.MonthsRange | src/utils/timelineRange.ts:43-53 | 12·(end-start+1) months, or none; month i is (start + i div 12, i mod 12) |
| TimelineRange.YearMonths | src/utils/timelineRange.ts:47-49 | the inner loop: the twelve months of one year in order |
| TimelineRange.MonthsRangeOrdered | src/utils/timelineRange.ts:46-50 | strictly ascending and duplicate-free months 0..11, from January of the start to December of the end |
| TimelineRange.MonthInRange | src/utils/timelineRange.ts:46-50 | every month of a year in the range is in the grid, at position (year-start)·12 + month |
| TimelineRange.GenerateMonthsRange | src/utils/timelineRange.ts:43-53 | the nested loops build exactly `MonthsRange` |
| TimelineRange.GetTimelineMonths | src/utils/dateUtils.ts:6-14 | the months of `getTimelineRange` are `generateMonthsRange` of `calculateTimelineRange` |
| TimelineRange.GridHoldsEventMonths | src/utils/dateUtils.ts:6-14 | with years in 1900..2100, the grid holds the start and the end month of every event |
| DateUtils.IsoSplit | src/utils/dateUtils.ts:47 | `split('-')` of a "YYYY-MM-DD" text gives its three parts |
| DateUtils.DateKey | src/utils/eventStacking.ts:59-68 | a date's number yyyymmdd, below 10^8 |
| DateUtils.DateKeyOrder | src/utils/eventStacking.ts:59-68 | comparing the numbers is comparing (year, month, day) lexicographically, for < and for = |
| DateUtils.IsSlashDateIsRegex | src/utils/dateUtils.ts:22 | the piece test is the regular expression: 1-2 digits, '/', 1-2 digits, '/', 4 digits |
| DateUtils.SlashPiecesSplit | src/utils/dateUtils.ts:22-25 | the capture groups are the '/'-separated pieces |
| DateUtils.NormalizeDate | src/utils/dateUtils.ts:17-40 | every result passes `isValidDateFormat` |
| DateUtils.NormalizeDateSpec | src/utils/dateUtils.ts:17-40 | a result exists exactly for trimmed text of the right shape with month 1..12, day 1..31 and year from 1900, and it holds those numbers |
| DateUtils.IsoTextValid | src/utils/dateUtils.ts:36 | the padded text is valid "YYYY-MM-DD" and reads back as its year, month and day |
| DateUtils.PadValue | src/utils/dateUtils.ts:36 | `padStart(2, '0')` keeps the value of a number |
| DateUtils.FormatDateForCsv | src/utils/dateUtils.ts:46-49 | any text, ISO or not, gives the second, third and first `Number` of its "-"-pieces joined by "/", at least five characters long |
| DateUtils.FormatIsoDate | src/utils/dateUtils.ts:46-49 | a "YYYY-MM-DD" date prints as its month, day and year without zero padding |
| DateUtils.IsoPieces | src/utils/dateUtils.ts:47 | `split('-').map(Number)` of a "YYYY-MM-DD" date gives its year, month and day values |
| DateUtils.FormatEmptyDate | src/utils/dateUtils.ts:46-49 | a cleared date "" prints as "undefined/undefined/0" |
| DateUtils.FormatUndashedText | src/utils/dateUtils.ts:46-49 | text without "-" prints month and day as `undefined` and the text's `Number` as the year |
| DateUtils.IsValidDateFormat | src/utils/dateUtils.ts:42-44 | `isValidDateFormat`: four digits, "-", two digits, "-", two digits; characterised by `DateUtils.IsoSplit` and `DateUtils.IsoPieces` |
| DateUtils.NormalizeSlashText | src/utils/dateUtils.ts:24-36 | on exact "M/D/YYYY" text, the padded date when the numbers are in range, else none |
| DateUtils.NormalizeDateAcceptsFebruary31 | src/utils/dateUtils.ts:31 | the day is not checked against the month: "2/31/2024" becomes "2024-02-31" |
| DateUtils.FormatDropsPadding | src/utils/dateUtils.ts:46-49 | the export form prints month, day and year without zero padding |
| DateUtils.FormatDropsLeadingZeros | src/utils/dateUtils.ts:46-49 | "2024-01-05" is printed "1/5/2024" |
| DateUtils.NormalizedIsNormalizedDate | src/utils/dateUtils.ts:31-36 | a result has a year from 1900, a month 1..12 and a day 1..31 |
| DateUtils.FormatThenNormalize | src/utils/dateUtils.ts:36-49 | round trip: `normalizeDate(formatDateForCSV(x)) == x` for every result x of `normalizeDate` |
| DateUtils.IsoTextIsX | src/utils/dateUtils.ts:36 | such a date is the padded text of its own numbers |
| Sorting.WithKey | src/utils/eventStacking.ts:59-68 | the elements with one sort key, in their order; each has that key |
| Sorting.WithKeyAppend | src/utils/eventStacking.ts:59-68 | picking one key's elements distributes over concatenation |
| Sorting.Insert | src/utils/eventStacking.ts:59-68 | inserting after the smaller-or-equal keys keeps a sorted sequence sorted and adds exactly the one element |
| Sorting.SortByKey | src/utils/eventStacking.ts:59-68 | `Array.prototype.sort` with a key comparator: a sorted permutation |
| Sorting.InsertWithKey | src/utils/eventStacking.ts:59-68 | the inserted element goes before every equal-key element already there |
| Sorting.SortStable | src/utils/eventStacking.ts:59-68 | the sort is stable: elements with equal keys keep their input order |
| Sorting.SortedDeterminedByKeys | src/utils/eventStacking.ts:59-68 | two sorted sequences with the same elements per key, in the same order, are equal |
| Sorting.SortedNoSmaller | src/utils/eventStacking.ts:59-68 | a sorted sequence has no element with a key below its first |
| Sorting.SortedStablePermutation | src/utils/eventStacking.ts:59-68 | any sorted, stable rearrangement is the result of `SortByKey`, so the stable sort is unique |
| EventStacking.EventColumns | src/utils/eventStacking.ts:21-39 | no months give (0, 0); the start column is the start month's index or 0 when it is missing; the end column is the end month's index, or -1 exactly when it is missing |
| EventStacking.TitleColumns | src/utils/eventStacking.ts:41-45 | `ceil(max(120, 8·length) / 32)`: the fewest 32-pixel columns that hold the title, at least four |
| EventStacking.VisualEnd | src/utils/eventStacking.ts:81-84 | the visual end is the date end or the title end, whichever is later, and at least three columns past the start |
| EventStacking.FirstFreeRow | src/utils/eventStacking.ts:86-105 | the first row from k on that has no collision: every row before it collides |
| EventStacking.HasCollision | src/utils/eventStacking.ts:47-53 | `hasCollision`: some placement in the same row whose closed column span meets it; used by `EventStacking.FirstFreeRow` |
| EventStacking.CollisionRowBelow | src/utils/eventStacking.ts:47-53 | a collision happens only on a row some earlier placement uses, so the search ends |
| EventStacking.PlaceOne | src/utils/eventStacking.ts:73-105 | each event takes a row no higher than the number already placed |
| EventStacking.PlaceAll | src/utils/eventStacking.ts:70-106 | one placement per event, in order; the i-th event gets a row of at most i |
| EventStacking.PlaceAllStep | src/utils/eventStacking.ts:73-106 | each placement is the first-fit placement of its event against the ones before it |
| EventStacking.PlaceAllLast | src/utils/eventStacking.ts:73-106 | placing one more event appends exactly one placement |
| EventStacking.PlaceAllSnoc | src/utils/eventStacking.ts:73-106 | the placements of a prefix extend by the next event's placement |
| EventStacking.RowsDisjoint | src/utils/eventStacking.ts:47-105 | no two events on the same row overlap, title space included |
| EventStacking.FirstFit | src/utils/eventStacking.ts:86-105 | every row above an event's row collides with an earlier event: the stacker is first-fit from the top |
| EventStacking.PlacementSpans | src/utils/eventStacking.ts:75-84 | the placement's columns are the event's date columns, and its visual end covers both those columns and the title |
| EventStacking.SameStartDifferentRows | src/utils/eventStacking.ts:47-53 | two events starting in the same column are never on the same row |
| EventStacking.SortKeyOrder | src/utils/eventStacking.ts:59-68 | the key orders by start date, then by end date, which is by duration for equal starts |
| EventStacking.ToStacked | src/utils/eventStacking.ts:109-112 | each placement becomes its event with its stack index |
| EventStacking.EventsOf | src/utils/eventStacking.ts:109-112 | the events of stacked events, in order |
| EventStacking.SortedHasIsoDates | src/utils/eventStacking.ts:59 | sorting keeps every date readable |
| EventStacking.StacksAreSortedEvents | src/utils/eventStacking.ts:55-113 | the result holds every event once, sorted by start then duration, equal keys in input order |
| EventStacking.Stacks | src/utils/eventStacking.ts:55-113 | what `calculateEventStacks` returns; characterised by `EventStacking.StacksAreSortedEvents` and the row lemmas beside it |
| EventStacking.StacksEvents | src/utils/eventStacking.ts:59-112 | the events of the result are the stably sorted input |
| EventStacking.StackedEventsOf | src/utils/eventStacking.ts:109-112 | the stacked events keep the placed events, in order |
| EventStacking.StackIndexBound | src/utils/eventStacking.ts:86-105 | the i-th stacked event has a row of at most i |
| EventStacking.PlaceEvent | src/utils/eventStacking.ts:86-105 | the `while (!placed)` loop pushes the first-fit placement |
| EventStacking.CalculateEventStacks | src/utils/eventStacking.ts:55-113 | the loop computes `Stacks`, the first-fit placement of the sorted events |
| TimelineEvent.Quarter | src/components/Timeline/TimelineEvent.tsx:27 | for a day 1..31, the quarter 0..3 whose eight-day block holds it |
| TimelineEvent.QuarterMonotone | src/components/Timeline/TimelineEvent.tsx:27 | a later day is never in an earlier quarter |
| TimelineEvent.GridColumns | src/components/Timeline/TimelineEvent.tsx:20-44 | the component renders nothing exactly when there are no months |
| TimelineEvent.SingleDaySpan | src/components/Timeline/TimelineEvent.tsx:41-44 | a one-day event is flagged single-day and spans exactly one quarter column |
| TimelineEvent.SpanInsideGrid | src/components/Timeline/TimelineEvent.tsx:33-42 | an event whose months are on the grid stays inside its 4·months quarter columns |
| TimelineEvent.MissingMonthColumn | src/components/Timeline/TimelineEvent.tsx:33-42 | a month missing from the grid puts its edge at column 0 or 1, before the grid, because `findIndex` gives -1 |
| TimelineEvent.IndexFollowsOrder | src/components/Timeline/TimelineEvent.tsx:33-38 | on an ascending grid a later month has a later index |
| TimelineEvent.SpanNonEmpty | src/components/Timeline/TimelineEvent.tsx:33-42 | on an ascending grid, an event ending no earlier than it starts spans at least one column |
| TimelineEvent.SpanOnRangeGrid | src/components/Timeline/TimelineEvent.tsx:33-41 | on the grid of a year range, the start column is 4·(months since January of the first year) + quarter + 1 |
| TimelineLayout.VisibleCategories | src/components/Timeline/Timeline.tsx:34 | a category is kept exactly when it is in the list and visible |
| TimelineLayout.VisibleCategoriesAppend | src/components/Timeline/Timeline.tsx:34 | the filter distributes over concatenation, so it keeps the order and the repeats of the list |
| TimelineLayout.VisibleCategoriesSingle | src/components/Timeline/Timeline.tsx:34 | one category is kept exactly when it is visible |
| TimelineLayout.EventsInCategories | src/components/Timeline/Timeline.tsx:35-37 | an event is kept exactly when some listed category has its id |
| TimelineLayout.EventsOfCategory | src/components/Timeline/Timeline.tsx:57 | an event is kept exactly when its category is the id |
| TimelineLayout.VisibleEventsExactly | src/components/Timeline/Timeline.tsx:34-37 | the visible events are exactly those whose category is listed and visible |
| TimelineLayout.FiltersKeepIsoDates | src/components/Timeline/Timeline.tsx:35-57 | filtering keeps every date readable |
| TimelineLayout.MaxStack | src/components/Timeline/Timeline.tsx:59 | `Math.max(...stackIndex, 0)`: the deepest row, 0 for no events |
| TimelineLayout.LaneHeight | src/components/Timeline/Timeline.tsx:61-69 | the larger of 80 and (rows)·36 + 8 |
| TimelineLayout.LaneHeightMonotone | src/components/Timeline/Timeline.tsx:65-69 | more rows never give a lower lane |
| TimelineLayout.LaneHeightShallow | src/components/Timeline/Timeline.tsx:65-69 | a lane stays at the 80-pixel minimum exactly when it has at most two rows |
| TimelineLayout.OffsetBefore | src/components/Timeline/Timeline.tsx:55-74 | the running offset before lane n is at least 80·n |
| TimelineLayout.Lanes | src/components/Timeline/Timeline.tsx:56-76 | one lane per category, in order |
| TimelineLayout.LanesStack | src/components/Timeline/Timeline.tsx:55-76 | lanes are stacked without gaps from offset 0, each at least 80 high |
| TimelineLayout.LaneContents | src/components/Timeline/Timeline.tsx:57-71 | each lane has its category's id and holds exactly that category's events |
| TimelineLayout.SumIsLastLaneEnd | src/components/Timeline/Timeline.tsx:74-80 | the final offset is where the last lane ends |
| TimelineLayout.TotalHeight | src/components/Timeline/Timeline.tsx:78-81 | the total height is the bottom of the last lane, or 80 with no lanes |
| TimelineLayout.BuildLane | src/components/Timeline/Timeline.tsx:57-72 | one category's lane: id, height, current offset and stacked events |
| TimelineLayout.ComposeLanes | src/components/Timeline/Timeline.tsx:54-76 | the `map` with its `currentOffset` accumulator builds `Lanes` and ends at the total offset |
| TimelineLayout.LaneStep | src/components/Timeline/Timeline.tsx:67-74 | lane i starts at the offset before it, which then grows by its height |
| TimelineLayout.LanesSnoc | src/components/Timeline/Timeline.tsx:56-76 | appending the next lane extends the lanes built so far |
| TimelineLayout.LanesFromAt | src/components/Timeline/Timeline.tsx:56-76 | lanes that match position by position are `Lanes` |
| TimelineLayout.ComposeLayout | src/components/Timeline/Timeline.tsx:33-82 | the filters, the grid and the lane loop compute `LayoutOf` |
| CategoryHeights.EventsOverlapSymmetric | src/hooks/useCategoryHeights.ts:10-17 | overlap is symmetric |
| CategoryHeights.EventsOverlap | src/hooks/useCategoryHeights.ts:10-17 | `doEventsOverlap`: both events have "YYYY-MM-DD"-shaped dates and the closed intervals of their day keys meet; characterised by the three lemmas beside it |
| CategoryHeights.EventsOverlapReflexive | src/hooks/useCategoryHeights.ts:10-17 | an event overlaps itself exactly when both its dates have the "YYYY-MM-DD" shape and its end day key is not before its start day key |
| CategoryHeights.EventsOverlapIsIntersection | src/hooks/useCategoryHeights.ts:16 | for ordered dates, overlap means the intervals intersect |
| CategoryHeights.CountOthers | src/hooks/useCategoryHeights.ts:31-35 | the inner loop's count excludes the event itself and is below n |
| CategoryHeights.Degree | src/hooks/useCategoryHeights.ts:30-35 | an event's count is one plus the other events it overlaps, 1 to n |
| CategoryHeights.MaxDegreeUpTo | src/hooks/useCategoryHeights.ts:27-37 | the largest count among the first n events, attained by one of them |
| CategoryHeights.MaxOverlapping | src/hooks/useCategoryHeights.ts:19-40 | 0 exactly for no events, else 1 to n |
| CategoryHeights.GetMaxOverlappingEvents | src/hooks/useCategoryHeights.ts:19-40 | the loops compute `MaxOverlapping` |
| CategoryHeights.CurrentOverlap | src/hooks/useCategoryHeights.ts:30-35 | the inner loop computes the event's count |
| CategoryHeights.CountOverlappingAppend | src/hooks/useCategoryHeights.ts:31-35 | counting over two parts adds the counts |
| CategoryHeights.CountOverlappingPermutation | src/hooks/useCategoryHeights.ts:23-35 | the count does not depend on the order of the events |
| CategoryHeights.DegreeByValue | src/hooks/useCategoryHeights.ts:30-35 | an event's count depends only on its value and the multiset of events |
| CategoryHeights.MaxDegreeAtMost | src/hooks/useCategoryHeights.ts:23-37 | reordering the events never raises the maximum |
| CategoryHeights.MaxDegreePermutation | src/hooks/useCategoryHeights.ts:23-37 | reordering the events keeps the maximum |
| CategoryHeights.MaxOverlappingOrderFree | src/hooks/useCategoryHeights.ts:22-25 | the result is the same for any order, so the sort does not matter |
| CategoryHeights.MaxOverlappingIsLargestDegree | src/hooks/useCategoryHeights.ts:27-37 | the result is the largest count, and some event attains it |
| CategoryHeights.HeightFor | src/hooks/useCategoryHeights.ts:44-59 | 72 for at most two overlapping events, else 34·n - 2 |
| CategoryHeights.HeightMonotone | src/hooks/useCategoryHeights.ts:53-59 | more overlap never gives a lower height |
| CategoryHeights.CategoryHeightsOf | src/hooks/useCategoryHeights.ts:42-62 | one entry per category, in order, with its id and the height from its events' largest overlap |
| CategoryHeights.CategoryHeightMinimum | src/hooks/useCategoryHeights.ts:53-59 | a category with at most two events gets the 72-pixel minimum |
| TimelineUtils.YearsOf | src/utils/timelineUtils.ts:5 | `months.map(month => month.year)` |
| TimelineUtils.Dedup | src/utils/timelineUtils.ts:5 | `Array.from(new Set(...))`: duplicate-free, with the same years |
| TimelineUtils.YearLessTotal | src/utils/timelineUtils.ts:5 | the default `sort` order on numbers (by their decimal text) is total on distinct years |
| TimelineUtils.InsertByString | src/utils/timelineUtils.ts:5 | inserting a new year keeps the years in text order and adds exactly it |
| TimelineUtils.SortByString | src/utils/timelineUtils.ts:5 | the default `sort`: the same years, in text order |
| TimelineUtils.SortedByStringDistinct | src/utils/timelineUtils.ts:5 | years strictly in text order are distinct |
| TimelineUtils.UniqueYears | src/utils/timelineUtils.ts:4-6 | exactly the grid's years, each once, in text order |
| TimelineUtils.UniqueYearsAscending | src/utils/timelineUtils.ts:4-6 | for four-digit years, text order is numeric order |
| TimelineUtils.UniqueYearsOfMixedWidths | src/utils/timelineUtils.ts:5 | years of different widths come out in text order: 999 and 1000 give [1000, 999] |
| TimelineUtils.LaterByString | src/utils/timelineUtils.ts:5 | 999 does not sort before 1000 |
| TimelineUtils.MonthsInYear | src/utils/timelineUtils.ts:8-10 | exactly the grid months of that year |
| TimelineUtils.MonthsInYearAppend | src/utils/timelineUtils.ts:9 | the filter distributes over concatenation |
| TimelineUtils.MonthsInYearOfRange | src/utils/timelineUtils.ts:8-10 | on a year-range grid, a year inside the range has its twelve months |
| TimelineUtils.MonthsOfOtherYears | src/utils/timelineUtils.ts:9 | a grid without the year gives no months |
| TimelineUtils.MonthsAllOfYear | src/utils/timelineUtils.ts:9 | a grid of one year gives all of it |
| TimelineUtils.YearWidth | src/utils/timelineUtils.ts:12-15 | a year's share is a percentage in 0..100 |
| TimelineUtils.ShareBound | src/utils/timelineUtils.ts:14 | a part over a whole, times 100, is in 0..100 |
| TimelineUtils.WidthSumIsShare | src/utils/timelineUtils.ts:12-15 | the shares of several years add up to the share of their months together |
| TimelineUtils.AddShares | src/utils/timelineUtils.ts:14 | shares over the same whole add |
| TimelineUtils.OccurrencesDistinct | src/utils/timelineUtils.ts:5 | a year occurs at most once among the unique years |
| TimelineUtils.MonthCountCons | src/utils/timelineUtils.ts:12-15 | counting the months of a list of years, one month at a time |
| TimelineUtils.MonthCountCovers | src/utils/timelineUtils.ts:12-15 | distinct years covering the grid count all its months |
| TimelineUtils.MonthCountEmpty | src/utils/timelineUtils.ts:12-15 | no months count 0 |
| TimelineUtils.YearWidthsSumTo100 | src/utils/timelineUtils.ts:4-15 | the widths of the unique years add up to 100 percent |
| TimelineUtils.UniqueYearsCover | src/utils/timelineUtils.ts:4-6 | every grid month's year is among the unique years |
| TimelineUtils.WholeShare | src/utils/timelineUtils.ts:14 | all of the months are 100 percent |
| TimelineUtils.MonthPosition | src/utils/timelineUtils.ts:17-27 | a month's span is one month wide |
| TimelineUtils.MonthPositionsTile | src/utils/timelineUtils.ts:17-27 | consecutive months meet, the first starts at 0 and the last ends at the content width |
| TimelineUtils.CurrentIndex | src/utils/timelineUtils.ts:39-44 | the month whose span holds the indicator, the last one for any indicator past it, and negative exactly for an indicator left of 0 |
| TimelineUtils.PastEndClamped | src/utils/timelineUtils.ts:41-44 | an indicator at or past the content width floors to the last month or beyond |
| TimelineUtils.FloorBounds | src/utils/timelineUtils.ts:42 | `Math.floor(x / w)` puts x within its w-wide cell |
| TimelineUtils.MultiplyBelow | src/utils/timelineUtils.ts:24-25 | scaling by a positive width keeps order |
| TimelineUtils.CurrentPosition | src/utils/timelineUtils.ts:29-59 | undefined exactly for no months or a negative indicator; otherwise the month under the line, the next one unless it is the last, and December ending exactly when the line is past the grid's end and the last month is December |
| TimelineUtils.DecemberEndingOnRange | src/utils/timelineUtils.ts:49-52 | on a year-range grid, December ends exactly when the line passes the content width |
| TimelineUtils.DisplayYear | src/components/Timeline/TimelineScrollIndicator.tsx:28 | the year shown is the current month's, or the next one when December has ended |
| TimelineUtils.DisplayYearPastEnd | src/utils/timelineUtils.ts:41-52 | past the grid's end the year shown is the one after the range |
| TimelineUtils.DisplayYearInside | src/utils/timelineUtils.ts:39-52 | inside the grid the year shown is that of the month under the line |
| TimelineUtils.TimelineYearRange | src/utils/timelineUtils.ts:61-84 | no events give the current year; events of a single year give that year |
| TimelineUtils.IntToStringNoDash | src/utils/timelineUtils.ts:65-83 | a number's text holds no en dash |
| TimelineUtils.YearRangeCaption | src/utils/timelineUtils.ts:74-83 | the caption has a dash exactly when the years differ, and splitting at it gives the first and the last year |
| Strings.TrimStart | src/utils/csvParser.ts:21 | leading whitespace is gone and the result is no longer than the input |
| Strings.TrimStartSuffix | src/utils/csvParser.ts:21 | the result is a suffix of the input, and what it drops is whitespace |
| Strings.TrimEnd | src/utils/csvParser.ts:18 | a prefix of the input without trailing whitespace, dropping only whitespace |
| Strings.Trim | src/utils/csvParser.ts:18 | `String.prototype.trim`: no whitespace at either end, and empty exactly for all-whitespace text |
| Strings.TrimInfix | src/utils/csvParser.ts:18 | the trimmed text occurs inside the input |
| Strings.TrimNoop | src/utils/csvParser.ts:73 | text without whitespace at its ends is its own trim |
| Strings.TrimIdempotent | src/utils/csvParser.ts:73 | trimming twice is trimming once |
| Strings.ToLower | src/utils/csvParser.ts:19 | `toLowerCase` maps each character |
| Strings.ToLowerAppend | src/utils/csvParser.ts:74 | lowering distributes over concatenation |
| Strings.DigitsValueBound2 | src/utils/dateUtils.ts:22-27 | two digits read at most 99 |
| Strings.DigitsValueBound4 | src/utils/dateUtils.ts:22-27 | four digits read at most 9999 |
| Strings.NatToString | src/utils/csvParser.ts:79-100 | the decimal text of a number reads back as it, without leading zeros |
| Strings.NatToStringLength | src/utils/dateUtils.ts:36 | one digit below 10, two below 100, four for 1000..9999 |
| Strings.NatToStringInjective | src/utils/csvParser.ts:152 | different numbers have different texts |
| Strings.IntToString | src/utils/timelineUtils.ts:65 | a template literal of a number: its digits, with '-' for a negative |
| Strings.IntToStringInjective | src/utils/timelineUtils.ts:79-83 | different numbers have different texts |
| Strings.PadStart2 | src/utils/dateUtils.ts:36 | `padStart(2, '0')`: zeros in front up to two characters |
| Strings.JoinCons | src/utils/csvParser.ts:152 | `join` puts the separator between consecutive parts |
| Strings.JoinWithoutChar | src/utils/csvExport.ts:15-16 | joining parts and a separator that lack a character gives a text without it |
| Strings.Join3 | src/utils/dateUtils.ts:36 | three parts joined |
| Strings.Split | src/utils/csvParser.ts:59 | `split` with one character: the parts lack it and joining them with it gives the input back |
| Strings.SplitUnique | src/utils/csvParser.ts:59 | splitting parts joined by the separator gives back those parts |
| Strings.SplitOfSeparatorFree | src/utils/csvParser.ts:59 | text without the separator splits into itself |
| Strings.LexLessIrreflexive | components/Timeline/EventTableEditor.tsx:208-214 | string `<` is irreflexive |
| Strings.LexLessTransitive | components/Timeline/EventTableEditor.tsx:208-214 | string `<` is transitive |
| Strings.LexLessTotal | src/utils/timelineUtils.ts:5 | string `<` orders any two different strings |
| Strings.LexLessAsymmetric | src/utils/timelineUtils.ts:5 | string `<` is asymmetric |
| Strings.LexLessDigits | src/utils/timelineUtils.ts:5 | for digit texts of one length, text order is numeric order |
| Strings.ContainsAroundChar | src/utils/csvParser.ts:74 | a substring without c found in a + c + b is in a or in b |
| Strings.NotContainsWithoutChar | src/utils/csvParser.ts:74 | text without a character of the substring does not contain it |
| Strings.ReplaceWhitespaceRuns | src/utils/csvExport.ts:24 | `replace(/\s+/g, c)` never lengthens the text |
| Strings.ReplacedHasNoWhitespace | src/utils/csvExport.ts:24 | after the replacement no whitespace is left |
| Strings.ReplaceJoinedWords | src/utils/csvExport.ts:24 | words separated by whitespace runs come out joined by c |
| Strings.ToLowerJoin | src/utils/csvExport.ts:24 | lowering a join lowers every part and the separator |
| Strings.LowerSlugOfWords | src/utils/csvExport.ts:24 | the lowered, dash-joined form of space-separated words |
| CsvParser.RemoveSpecial | src/utils/csvParser.ts:20 | only letters a-z, digits, whitespace, '&', '_' and '-' are left, and text of those stays as it is |
| CsvParser.ReplaceAmpersands | src/utils/csvParser.ts:21 | text without '&' is unchanged |
| CsvParser.AfterAmpersand | src/utils/csvParser.ts:21 | the rest after a `\s*&\s*` match is a proper suffix |
| CsvParser.DropSeparators | src/utils/csvParser.ts:22 | a match of `[-\s]+` is consumed whole |
| CsvParser.CollapseSeparators | src/utils/csvParser.ts:22 | no '-' or whitespace is left, each run becoming one '_' |
| CsvParser.NormalizeCategory | src/utils/csvParser.ts:17-23 | the result is made of lower-case letters, digits and '_' only |
| CsvParser.AmpersandsKeep | src/utils/csvParser.ts:20-21 | after the ampersand step only letters, digits, whitespace, '_' and '-' remain |
| CsvParser.CollapseKeeps | src/utils/csvParser.ts:22 | after the last step only letters, digits and '_' remain |
| CsvParser.NormalizeCategoryIdempotent | src/utils/csvParser.ts:17-23 | normalizing twice is normalizing once |
| CsvParser.NormalizedIsFixed | src/utils/csvParser.ts:17-23 | an id of lower-case letters, digits and '_' is its own normal form |
| CsvParser.NormalizeAmpersandWords | src/utils/csvParser.ts:21 | "x & y" of plain words becomes "x_and_y" |
| CsvParser.NormalizeHyphenExample | src/utils/csvParser.ts:22 | "a - b" becomes "a_b": a whole run of spaces and '-' is one '_' |
| CsvParser.Scan | src/utils/csvParser.ts:30-52 | the character loop gives at least one field, each trimmed |
| CsvParser.ParseLine | src/utils/csvParser.ts:25-54 | at least one field, each trimmed |
| CsvParser.ParseCsvLine | src/utils/csvParser.ts:25-54 | the loop, with its skip of an escaped quote, computes `ParseLine` |
| CsvParser.TrimAll | src/utils/csvParser.ts:44-52 | each field trimmed |
| CsvParser.ScanPlain | src/utils/csvParser.ts:46-48 | outside quotes, characters other than '"' and ',' are copied into the field |
| CsvParser.ScanQuoted | src/utils/csvParser.ts:42-48 | inside quotes, everything but '"' is copied, commas included |
| CsvParser.QuotedField | src/utils/csvParser.ts:33-41 | a quoted field without inner quotes is its contents |
| CsvParser.LineWithoutQuotes | src/utils/csvParser.ts:25-54 | a line without quotes parses like `split(',')` with every part trimmed |
| CsvParser.ScanPieces | src/utils/csvParser.ts:42-48 | parts without '"' or ',' joined by commas come back as trimmed fields |
| CsvParser.FieldCountWithoutQuotes | src/utils/csvParser.ts:25-54 | a line without quotes has one field more than it has commas |
| Mismatches.Keys | src/utils/csvParser.ts:62 | the categories of the mismatch map, in insertion order |
| Mismatches.RowsOf | src/utils/csvParser.ts:62 | a category not in the map has no rows |
| Mismatches.RecordKeys | src/utils/csvParser.ts:130-133 | recording a row adds its category at the end exactly when it is new |
| Mismatches.RecordRows | src/utils/csvParser.ts:130-133 | recording appends the row to its category's list and changes no other list |
| Mismatches.RecordDistinct | src/utils/csvParser.ts:130-133 | the map keeps one entry per category |
| Mismatches.Recorded | src/utils/csvParser.ts:130-133 | recording a sequence of rows yields one entry per category |
| Mismatches.CategoriesOf | src/utils/csvParser.ts:130-133 | the categories of the recorded rows, in order |
| Mismatches.FirstIndex | src/utils/csvParser.ts:130-133 | the first position of a category |
| Mismatches.RecordedKeys | src/utils/csvParser.ts:130-151 | the keys are the mismatched categories, ordered by first appearance, as `Map` iteration gives them |
| Mismatches.RecordedRows | src/utils/csvParser.ts:130-133 | each category's list holds its rows in input order |
| Mismatches.RowNumbers | src/utils/csvParser.ts:152 | each row number as decimal text |
| CsvEvents.NormalizeLineEndings | src/utils/csvParser.ts:58 | `replace(/\r\n?/g, '\n')` leaves no '\r' |
| CsvEvents.LineEndingsCopy | src/utils/csvParser.ts:58 | text without '\r' is copied unchanged |
| CsvEvents.LineEndingsWithoutCr | src/utils/csvParser.ts:58 | text without '\r' is unchanged |
| CsvEvents.LineEndingsOfJoin | src/utils/csvParser.ts:58-59 | lines joined by "\r\n" or "\r" come out joined by "\n" |
| CsvEvents.LineBreak | src/utils/csvParser.ts:58 | a "\r\n" or lone "\r" becomes one "\n" |
| CsvEvents.KeepDataLines | src/utils/csvParser.ts:72-75 | a line is kept exactly when its trim is non-empty and lacks "character limit" in any case |
| CsvEvents.KeepDataLinesAppend | src/utils/csvParser.ts:70-75 | the line filter distributes over concatenation, so it keeps the order and the repeats of the lines |
| CsvEvents.KeepDataLinesSingle | src/utils/csvParser.ts:72-75 | one line is kept exactly when it is a data line |
| CsvEvents.IsDataLine | src/utils/csvParser.ts:72-75 | the filter's test: the trimmed line is non-empty and has no "character limit" in any letter case; used by `CsvEvents.KeepDataLines` |
| CsvEvents.KeepAllDataLines | src/utils/csvParser.ts:72-75 | data lines all pass the filter |
| CsvEvents.LinesOf | src/utils/csvParser.ts:58-59 | `split('\n')` gives at least one line |
| CsvEvents.DataLinesOf | src/utils/csvParser.ts:58-75 | after the two header lines only data lines are kept |
| CsvEvents.MissingFields | src/utils/csvParser.ts:94-97 | nothing is missing exactly when the title, start date and category are non-blank |
| CsvEvents.ClassifyRow | src/utils/csvParser.ts:83-143 | blank rows are skipped silently and every other row gets the outcome of `CsvEvents.ClassifyFields` on its first four fields (missing ones blank); an event is emitted exactly when the fields are present, the title is at most 55 characters, the dates are accepted (a blank end date taking the start date) and the normalized category is known, and then it holds the trimmed title, the normalized dates and the normalized category; a mismatch keeps the raw category and the row number |
| CsvEvents.ClassifyFields | src/utils/csvParser.ts:91-143 | the error a row reports is the first failing check, each stated as an if-and-only-if: missing fields (their names, in order), then a title over 55 characters, then a start date not accepted, then a non-blank end date not accepted; a mismatch exactly when all these pass and the normalized category is unknown; an emitted event exactly when they pass and the category is known |
| CsvEvents.IsEmptyRow | src/utils/csvParser.ts:13-15 | `isEmptyRow`: every value is blank; exactly the rows `CsvEvents.ClassifyRow` skips |
| CsvEvents.EmittedIsWellFormed | src/utils/csvParser.ts:137-143 | an emitted event has a trimmed title of 1..55 characters, valid dates and a category that is known and already normalized |
| CsvEvents.Outcomes | src/utils/csvParser.ts:78-84 | data line i is row i + 3 |
| CsvEvents.MismatchMessages | src/utils/csvParser.ts:151-157 | one message per mismatched category |
| CsvEvents.ParseCsvEventsOf | src/utils/csvParser.ts:159-163 | the categories are returned unchanged |
| CsvEvents.ParseCsvEvents | src/utils/csvParser.ts:56-164 | the loop over the data lines computes `ParseCsvEventsOf` |
| CsvEvents.AppendMismatchMessages | src/utils/csvParser.ts:151-157 | the mismatch messages come after the row errors |
| CsvEvents.FoldSnoc | src/utils/csvParser.ts:78-148 | each data line changes the accumulated result by one step |
| CsvEvents.MessagesSnoc | src/utils/csvParser.ts:151-157 | one more category appends one more message |
| CsvEvents.FoldEvents | src/utils/csvParser.ts:138-143 | the events are those of the emitting rows, in row order |
| CsvEvents.FoldErrors | src/utils/csvParser.ts:99-123 | the row errors are those of the failing rows, in row order |
| CsvEvents.FoldMismatches | src/utils/csvParser.ts:128-135 | the mismatch map is the recorded mismatching rows |
| CsvEvents.OneResultPerRow | src/utils/csvParser.ts:78-148 | every data line gives exactly one of an event, an error, a mismatch or a silent skip |
| CsvExport.EventRows | src/utils/csvExport.ts:10-16 | one row per event, in input order |
| CsvExport.EventRow | src/utils/csvExport.ts:10-15 | one event's line: quoted title, both dates through `formatDateForCSV`, category; read back by `CsvExport.ExportedRowReadBack` |
| CsvExport.ClearedEndDateRow | src/utils/csvExport.ts:10-15 | an event with a cleared end date exports "undefined/undefined/0" in the end-date column |
| CsvExport.CsvContent | src/utils/csvExport.ts:4-18 | the exported text; its lines by `CsvExport.ExportedLines`, its round trip by `CsvExport.ExportThenImport` |
| CsvExport.Slug | src/utils/csvExport.ts:24 | the title part of the file name; characterised by `CsvExport.SlugOfWords` and `CsvExport.FilenameHasNoWhitespace` |
| CsvExport.ExportFilename | src/utils/csvExport.ts:23-24 | the download name ends in ".csv" |
| CsvExport.SlugOfWords | src/utils/csvExport.ts:24 | a title of space-separated words becomes those words lower-cased and joined by '-' |
| CsvExport.FilenameHasNoWhitespace | src/utils/csvExport.ts:24 | the download name holds no whitespace |
| CsvExport.IdIsPlain | src/utils/csvExport.ts:14 | a category id is a plain CSV field |
| CsvExport.ReadBackAll | src/utils/csvExport.ts:10-16 | what the importer makes of each exported event |
| CsvExport.FormattedDatePlain | src/utils/csvExport.ts:12-13 | an exported date is a non-empty plain field |
| CsvExport.PlainTrim | src/utils/csvExport.ts:12-14 | a plain field trims to itself |
| CsvExport.QuotedThenRest | src/utils/csvExport.ts:11-15 | the quoted title parses as its trimmed self, and the rest of the row after it |
| CsvExport.PlainRow | src/utils/csvExport.ts:15 | three plain fields joined by commas parse back as themselves |
| CsvExport.PlainRowChars | src/utils/csvExport.ts:15 | such a row has no quote |
| CsvExport.PlainRowSplit | src/utils/csvExport.ts:15 | such a row splits at its commas into the three fields |
| CsvExport.PlainTrimAll | src/utils/csvExport.ts:15 | trimmed fields stay as they are |
| CsvExport.ParseExportedRow | src/utils/csvExport.ts:11-15 | an exported row parses into the trimmed title and the three other fields |
| CsvExport.LowerQuoted | src/utils/csvExport.ts:11-15 | lowering a row lowers only its title when the tail has no capitals |
| CsvExport.NotInQuotedLine | src/utils/csvExport.ts:11-15 | a note with a space cannot be found in a row whose tail has no spaces unless it is in the title |
| CsvExport.ExportedRowIsDataLine | src/utils/csvExport.ts:11-15 | a row whose title does not mention "character limit" survives the importer's line filter |
| CsvExport.QuotedRowAvoids | src/utils/csvExport.ts:11-15 | such a row is trimmed, non-empty and free of the note |
| CsvExport.RowTailChars | src/utils/csvExport.ts:15 | the tail after the title is made of plain characters and commas |
| CsvExport.ExportedRowFields | src/utils/csvExport.ts:10-15 | the importer's splitter reads an exported row as the title, the two printed dates and the category |
| CsvExport.RowShape | src/utils/csvExport.ts:15 | the row is the quoted title and its tail |
| CsvExport.ClassifyAccepted | src/utils/csvParser.ts:91-143 | fields that pass every check are emitted with the normalized values |
| CsvExport.ClassifyFour | src/utils/csvParser.ts:83-91 | a four-field row with a title is not blank and is checked field by field |
| CsvExport.ExportedDatesReadBack | src/utils/csvExport.ts:12-13 | the exported dates normalize back to the event's dates |
| CsvExport.ExportedCategory | src/utils/csvExport.ts:14 | an exported id normalizes to itself |
| CsvExport.FormattedDates | src/utils/csvExport.ts:12-13 | the exported dates are not blank |
| CsvExport.ClassifyExported | src/utils/csvExport.ts:10-15 | the fields of an exported, importable event are emitted as the event itself (title trimmed) |
| CsvExport.ExportedRowKept | src/utils/csvExport.ts:10-15 | an importable event's row passes the line filter |
| CsvExport.ExportedRowReadBack | src/utils/csvExport.ts:10-15 | an importable event's row imports as that event |
| CsvExport.QuoteInTitle | src/utils/csvParser.ts:33-48 | a quote inside the quoted title ends the quoted part early, so the rest of the row stays in the title field |
| CsvExport.QuotedTitleShape | src/utils/csvExport.ts:11 | the quoted title with an inner quote, regrouped |
| CsvExport.SingleFieldFails | src/utils/csvParser.ts:91-101 | a row with only a title fails, reporting the missing start date and category |
| CsvExport.TailNotBlank | src/utils/csvParser.ts:95 | such a merged field is not blank |
| CsvExport.QuotedTitleIsLost | src/utils/csvExport.ts:11 | a title holding a quote (followed by text without commas) makes its exported row fail to import, since quotes are not escaped |
| CsvExport.ExportLines | src/utils/csvExport.ts:6-18 | the header, the format line and at least one more line |
| CsvExport.ContentIsJoin | src/utils/csvExport.ts:6-18 | the content is its lines joined by "\n" |
| CsvExport.JoinTwoMore | src/utils/csvExport.ts:18 | the header and format lines come first |
| CsvExport.HeaderLines | src/utils/csvExport.ts:6-7 | the header and format lines hold no line break |
| CsvExport.FieldsWithoutBreaks | src/utils/csvExport.ts:6-7 | fields without line breaks join into a line without them |
| CsvExport.HeaderFieldsUnbroken | src/utils/csvExport.ts:6 | the header fields hold no line break |
| CsvExport.FormatFieldsUnbroken | src/utils/csvExport.ts:7 | the format fields hold no line break |
| CsvExport.FormatHintsUnbroken | src/utils/csvExport.ts:7 | the first three format fields hold no line break |
| CsvExport.RowWithoutBreaks | src/utils/csvExport.ts:10-15 | a row has a line break only if the title has one |
| CsvExport.ExportLinesUnbroken | src/utils/csvExport.ts:6-18 | no exported line holds a line break when no title does |
| CsvExport.ExportedLines | src/utils/csvExport.ts:6-18 | splitting the content at "\n" gives the exported lines back |
| CsvExport.ExportedDataLines | src/utils/csvExport.ts:6-18 | the importer's data lines are exactly the event rows: the format line is dropped because it says "Character limit" |
| CsvExport.RowsKept | src/utils/csvExport.ts:10-16 | every event row passes the line filter |
| CsvExport.AllEmitted | src/utils/csvParser.ts:78-148 | all rows emitted give those events and no errors |
| CsvExport.ExportThenImport | src/utils/csvExport.ts:4-18 | round trip: importing an export of importable events gives the same events (titles trimmed), the same categories and no errors |
| CsvExport.EmptyExportThenImport | src/utils/csvExport.ts:4-18 | an empty export imports as nothing, without errors |
| CsvTemplate.ParseQuotedRow | src/utils/csvParser.ts:170-171 | a row of four quoted fields parses into the four trimmed fields |
| CsvTemplate.QuotedRowShape | src/utils/csvParser.ts:170-171 | a quoted row is a quoted title and a tail |
| CsvTemplate.RowUnbroken | src/utils/csvParser.ts:170-171 | a sample row holds no line break |
| CsvTemplate.RowIsDataLine | src/utils/csvParser.ts:72-75 | a sample row survives the importer's line filter |
| CsvTemplate.TailPlain | src/utils/csvParser.ts:170-171 | the tail of a sample row has no spaces or capitals |
| CsvTemplate.RowMismatch | src/utils/csvParser.ts:125-135 | a sample row whose category is unknown is recorded as a mismatch on its row |
| CsvTemplate.FieldsMismatch | src/utils/csvParser.ts:91-135 | fields that pass every check but the category are a mismatch |
| CsvTemplate.TwoMismatches | src/utils/csvParser.ts:128-135 | two mismatches of one category give one entry with both rows and nothing else |
| CsvTemplate.ImportOfSamples | src/utils/csvParser.ts:56-164 | a file of two header lines and two sample rows of an unknown category imports as no events and one message for rows 3 and 4 |
| CsvTemplate.ImportOfMismatches | src/utils/csvParser.ts:56-164 | two data lines that both mismatch one category give exactly that message |
| CsvTemplate.OneMessage | src/utils/csvParser.ts:151-157 | one category gives one message |
| CsvTemplate.SampleLines | src/utils/csvParser.ts:58-75 | the data lines are the two sample rows |
| CsvTemplate.DataLinesOfFour | src/utils/csvParser.ts:58-75 | of four lines, the last two are kept when they are data lines |
| CsvTemplate.UnbrokenHasNoBreak | src/utils/csvParser.ts:168-169 | a header line holds no line break |
| CsvTemplate.LinesOfUnbroken | src/utils/csvParser.ts:59 | lines without breaks joined by "\n" split back into themselves |
| CsvTemplate.TitleFields | src/utils/csvParser.ts:170-171 | a sample title and its two dates pass the field checks |
| CsvTemplate.SlashTextAccepted | src/utils/csvParser.ts:170-171 | "M/D/YYYY" text with numbers in range is an accepted date |
| CsvTemplate.DigitsPlain | src/utils/csvParser.ts:170-171 | digits are plain characters |
| CsvTemplate.PlainAppend | src/utils/csvParser.ts:170-171 | plain texts concatenate to plain text |
| CsvTemplate.DigitIsNotBlank | src/utils/csvParser.ts:170-171 | a digit is not whitespace |
| CsvTemplate.SampleCategoryFields | src/utils/csvParser.ts:170-171 | "test" is a plain, already normalized category |
| CsvTemplate.HintsUnbroken | src/utils/csvParser.ts:169 | the hint line holds no line break |
| CsvTemplate.HeaderUnbroken | src/utils/csvParser.ts:168 | the header line holds no line break |
| CsvTemplate.TemplateImport | src/utils/csvParser.ts:166-172 | importing the template into a timeline without a "test" category gives no events and one mismatch message for rows 3 and 4 |
| CsvTemplate.TemplateCsv | src/utils/csvParser.ts:166-172 | `getTemplateCSV()`: header, hints and two sample rows joined by "\n"; its import by `CsvTemplate.TemplateImport` |
| ExcelImport.FindMatchingCategory | src/components/ImportExcelButton/ImportExcelButton.tsx:32-38 | none exactly when no category matches by normalized id or label; otherwise a listed category that matches |
| ExcelImport.FindIsFirst | src/components/ImportExcelButton/ImportExcelButton.tsx:34-37 | `find` gives the first matching category |
| ExcelImport.MissingFields | src/components/ImportExcelButton/ImportExcelButton.tsx:142-145 | nothing is missing exactly when the title and category are non-blank and the start date is non-empty |
| ExcelImport.ClassifyRow | src/components/ImportExcelButton/ImportExcelButton.tsx:129-206 | a row is skipped exactly when title, start date and category are all empty, and every other row gets the outcome of `ExcelImport.ClassifyFields`; errors carry the row number; a mismatch keeps the trimmed category, which matches nothing |
| ExcelImport.ClassifyFields | src/components/ImportExcelButton/ImportExcelButton.tsx:141-201 | the outcome is the first failing check, each stated as an if-and-only-if: missing fields, then a trimmed title over 55 characters, then a start date that does not parse, then a non-empty end date that does not parse, then a trimmed category no category matches (a mismatch); otherwise an emitted event with the trimmed title, the parsed dates (the end date defaulting to the start) and the matched category's id |
| ExcelImport.Outcomes | src/components/ImportExcelButton/ImportExcelButton.tsx:120-130 | sheet row i after the two skipped rows is row i + 3 |
| ExcelImport.MismatchMessages | src/components/ImportExcelButton/ImportExcelButton.tsx:210-216 | one message per mismatched category, in map order |
| ExcelImport.Decide | src/components/ImportExcelButton/ImportExcelButton.tsx:224-238 | any error is alerted, joined by newlines; the events are imported, with the categories unchanged, exactly when there are no errors and at least one event |
| ExcelImport.ImportRows | src/components/ImportExcelButton/ImportExcelButton.tsx:116-238 | the row loop and the decision compute `ImportOf` |
| ExcelImport.AppendMismatchMessages | src/components/ImportExcelButton/ImportExcelButton.tsx:210-216 | the mismatch messages come after the row errors |
| ExcelImport.FoldSnoc | src/components/ImportExcelButton/ImportExcelButton.tsx:129-207 | each row changes the accumulated result by one step |
| ExcelImport.MessagesSnoc | src/components/ImportExcelButton/ImportExcelButton.tsx:210-216 | one more category appends one more message |
| ExcelImport.FoldEvents | src/components/ImportExcelButton/ImportExcelButton.tsx:191-201 | the events are those of the emitting rows, in row order |
| ExcelImport.FoldErrors | src/components/ImportExcelButton/ImportExcelButton.tsx:147-173 | the row errors are those of the failing rows, in row order |
| ExcelImport.FoldMismatches | src/components/ImportExcelButton/ImportExcelButton.tsx:181-187 | the mismatch map is the recorded mismatching rows |
| ExcelImport.OneResultPerRow | src/components/ImportExcelButton/ImportExcelButton.tsx:129-207 | every row gives exactly one of an event, an error, a mismatch or a skip |
| ExcelImport.ParseRowsCollects | src/components/ImportExcelButton/ImportExcelButton.tsx:124-216 | the events and the errors (row errors, then mismatch messages) of all rows |
| ExcelImport.ParseRowsOf | src/components/ImportExcelButton/ImportExcelButton.tsx:124-216 | the events and errors after the row loop; characterised by `ExcelImport.ParseRowsCollects` |
| ExcelImport.ImportIsAllOrNothing | src/components/ImportExcelButton/ImportExcelButton.tsx:224-238 | the import happens exactly when no row failed or mismatched and some row gave an event |
| ExcelImport.ImportOf | src/components/ImportExcelButton/ImportExcelButton.tsx:116-238 | the handler's decision; characterised by `ExcelImport.ImportIsAllOrNothing` and realised by `ExcelImport.ImportRows` |
| ExcelImport.RecordedNonEmpty | src/components/ImportExcelButton/ImportExcelButton.tsx:183-186 | a mismatch always leaves an entry in the map |
| SaveEvents.ServerMap | src/utils/saveEvents.ts:29 | the map's keys are the server ids, each mapped to a server row with that id |
| SaveEvents.ServerMapHolds | src/utils/saveEvents.ts:29 | with unique ids, each server row is found under its own id |
| SaveEvents.Classify | src/utils/saveEvents.ts:28-52 | the loop and the filter compute `PlanOf` |
| SaveEvents.PlanOf | src/utils/saveEvents.ts:28-52 | the three lists of the plan; characterised by `SaveEvents.InsertsExactly`, `SaveEvents.UpdatesExactly` and `SaveEvents.DeleteIdsExactly` |
| SaveEvents.InsertsExactly | src/utils/saveEvents.ts:36-39 | an event is inserted exactly when it is a client event whose id the server lacks |
| SaveEvents.InsertsAppend | src/utils/saveEvents.ts:36-39 | the inserts of a concatenation are the inserts of each part, in client order |
| SaveEvents.InsertsSingle | src/utils/saveEvents.ts:36-39 | one client event is inserted exactly when the server lacks its id |
| SaveEvents.UpdatesExactly | src/utils/saveEvents.ts:36-47 | an event is updated exactly when it is a client event the server has with some field different |
| SaveEvents.DeleteIdsExactly | src/utils/saveEvents.ts:50-52 | an id is deleted exactly when the server has it and the client does not |
| SaveEvents.DeleteIdsAppend | src/utils/saveEvents.ts:50-52 | the delete ids of a concatenation are those of each part, in server order |
| SaveEvents.DeleteIdsSingle | src/utils/saveEvents.ts:50-52 | one server row's id is deleted exactly when the client lacks it |
| SaveEvents.InsertAndUpdateDisjoint | src/utils/saveEvents.ts:36-47 | no event is both inserted and updated, and an unchanged event is neither |
| SaveEvents.DeletesAreNotClientIds | src/utils/saveEvents.ts:50-52 | no client event's id is deleted |
| SaveEvents.EmptyClientDeletesAll | src/utils/saveEvents.ts:28-52 | saving no events deletes every server row and inserts and updates nothing |
| SaveEvents.IdsInOrder | src/utils/saveEvents.ts:52 | the ids of the rows, in order |
| SaveEvents.EveryIdDeleted | src/utils/saveEvents.ts:50-52 | with no client ids every server id is deleted, in server order |
| SaveEvents.UpdateRow | src/utils/saveEvents.ts:58-68 | an UPDATE keeps the row's id |
| SaveEvents.UpdateRows | src/utils/saveEvents.ts:58-71 | each row goes through the updates, and the row count stays |
| SaveEvents.UpdateRowUntouched | src/utils/saveEvents.ts:67 | a row no update names stays as it is |
| SaveEvents.UpdateRowTaken | src/utils/saveEvents.ts:61-67 | a row named by an update takes its values |
| SaveEvents.DeleteRowsExactly | src/utils/saveEvents.ts:74-79 | a row is kept exactly when its id is not deleted |
| SaveEvents.DeleteRowsUnique | src/utils/saveEvents.ts:74-79 | deleting keeps ids unique |
| SaveEvents.InsertsUnique | src/utils/saveEvents.ts:36-39 | unique client ids give unique inserts |
| SaveEvents.ClientEventOf | src/utils/saveEvents.ts:30 | with unique client ids an id names one client event |
| SaveEvents.UpdatesWithId | src/utils/saveEvents.ts:36-47 | the only update with a client event's id is that event |
| SaveEvents.UpdatedServerRow | src/utils/saveEvents.ts:36-71 | after the updates, a server row the client also has holds the client's values |
| SaveEvents.UntouchedServerRow | src/utils/saveEvents.ts:58-71 | a server row the client lacks is not updated |
| SaveEvents.KeptRow | src/utils/saveEvents.ts:54-82 | after UPDATE and DELETE the table holds exactly the client events the server had |
| SaveEvents.SaveRoundTrip | src/utils/saveEvents.ts:16-101 | after the UPDATEs, the DELETE and the INSERT, the table holds exactly the client's events, with unique ids |
| SaveEvents.Apply | src/utils/saveEvents.ts:54-100 | the table after update, delete and insert; characterised by `SaveEvents.SaveRoundTrip` |
| SaveEvents.RowsUnique | src/utils/saveEvents.ts:54-100 | the kept rows and the inserts have no id in common |
| SaveEvents.UpdatedRowsUnique | src/utils/saveEvents.ts:58-71 | updating keeps ids unique |
| SaveEvents.UniqueAppend | src/utils/saveEvents.ts:85-100 | two unique lists without a shared id concatenate into a unique list |
| UseEvents.ReplaceById | src/hooks/useEvents.ts:15-19 | the update keeps the number of events |
| UseEvents.ReplaceByIdAt | src/hooks/useEvents.ts:16-18 | each event with the updated id is replaced, every other one kept in place |
| UseEvents.ReplaceAbsentId | src/hooks/useEvents.ts:15-19 | an update of an absent id changes nothing |
| UseEvents.SurvivorsExactly | src/hooks/useEvents.ts:37-50 | an incoming event survives exactly when no existing event has its title, dates and category |
| UseEvents.SurvivorsAppend | src/hooks/useEvents.ts:37-50 | the duplicate filter distributes over concatenation, so survivors keep batch order and repeats |
| UseEvents.SurvivorsSingle | src/hooks/useEvents.ts:37-50 | one incoming event survives exactly when it is not a duplicate |
| UseEvents.Survivors | src/hooks/useEvents.ts:37-50 | `filter(newEvent => !isDuplicate)`; characterised by `UseEvents.SurvivorsExactly` and `UseEvents.SurvivorsAppend` |
| UseEvents.BatchKeepsOwnRepeats | src/hooks/useEvents.ts:37-50 | repeats inside the batch are all kept: only existing events count as duplicates |
| UseEvents.WithIds | src/hooks/useEvents.ts:30-33 | each incoming event with its fresh id |
| UseEvents.AddedEventsExtends | src/hooks/useEvents.ts:35-61 | the new list is the old list followed by the surviving incoming events in batch order, repeats kept (the empty cases included); what follows the old list is exactly the surviving incoming events |
| UseEvents.AddedEvents | src/hooks/useEvents.ts:35-61 | the list after `addEvents`; characterised by `UseEvents.AddedEventsExtends` and realised by `UseEvents.EventStore.AddEvents` |
| UseEvents.EventStore.constructor | src/hooks/useEvents.ts:5 | the list starts empty |
| UseEvents.EventStore.AddEvent | src/hooks/useEvents.ts:7-13 | exactly one event is appended, with the given fields and the fresh id |
| UseEvents.EventStore.UpdateEvent | src/hooks/useEvents.ts:15-19 | the events with the id are replaced |
| UseEvents.EventStore.AddEvents | src/hooks/useEvents.ts:21-62 | the list becomes the old one plus the survivors, in batch order, or stays as it is for an empty batch or when all are duplicates (the alert case) |
| UseEvents.EventStore.ClearEvents | src/hooks/useEvents.ts:64-66 | the list becomes empty |
| UseCategories.UpdatedCategories | src/hooks/useCategories.ts:8-15 | never empty: the given list when it has entries, else the defaults |
| UseCategories.CategoryStore.constructor | src/hooks/useCategories.ts:6 | the list starts as the defaults |
| UseCategories.CategoryStore.UpdateCategories | src/hooks/useCategories.ts:8-15 | the list becomes the given list, or the defaults when it is missing or empty |
| UseCategories.CategoryStore.ResetCategories | src/hooks/useCategories.ts:17-19 | the list becomes the defaults |
| UseTimelineChanges.ChangedIffDiffers | src/hooks/useTimelineChanges.ts:32-42 | the five comparisons report a change exactly when the state differs from the saved one |
| UseTimelineChanges.Changed | src/hooks/useTimelineChanges.ts:32-42 | the five comparisons of the effect; characterised by `UseTimelineChanges.ChangedIffDiffers` |
| UseTimelineChanges.ReorderIsChange | src/hooks/useTimelineChanges.ts:32 | reordering two different events counts as a change, because arrays are compared in order |
| UseTimelineChanges.ChangeTracker.constructor | src/hooks/useTimelineChanges.ts:21-29 | the saved state is the first state, and nothing has changed |
| UseTimelineChanges.ChangeTracker.Observe | src/hooks/useTimelineChanges.ts:31-52 | a new state leaves the saved one as it is, and the flag says whether they differ |
| UseTimelineChanges.ChangeTracker.MarkAsSaved | src/hooks/useTimelineChanges.ts:54-63 | the current state becomes the saved one and the flag clears |
| UseTimelineChanges.ChangeTracker.ResetChanges | src/hooks/useTimelineChanges.ts:65-74 | the current state becomes the saved one and the flag clears |
| UseTimelineTitle.TitleState.constructor | src/hooks/useTimelineTitle.ts:10-13 | the default title and an empty description |
| UseTimelineTitle.TitleState.SetTitle | src/hooks/useTimelineTitle.ts:15-17 | the title changes, the description stays |
| UseTimelineTitle.TitleState.SetDescription | src/hooks/useTimelineTitle.ts:19-21 | the description changes, the title stays |
| UseTimelineTitle.TitleState.ResetTitle | src/hooks/useTimelineTitle.ts:23-28 | back to the default title and an empty description |
| CategoryManagerModel.LabelMap | components/Settings/CategoryManager.tsx:19-21 | the keys are exactly the categories' ids, and an id that no later category repeats maps to that category's label (with repeats, the last one wins, as in the `reduce`) |
| CategoryManagerModel.Renamed | components/Settings/CategoryManager.tsx:37-64 | refused exactly when the trimmed name is empty or, ignoring case, another category's label; otherwise only that category's label changes, to the trimmed name |
| CategoryManagerModel.WithColor | components/Settings/CategoryManager.tsx:66-73 | only that category's colour changes |
| CategoryManagerModel.Toggled | components/Settings/CategoryManager.tsx:75-82 | only that category's visibility flips |
| CategoryManagerModel.ToggleTwice | components/Settings/CategoryManager.tsx:75-82 | toggling twice restores the list |
| CategoryManagerModel.RemoveAt | components/Settings/CategoryManager.tsx:89 | `filter((_, i) => i !== index)`: the category at the index is gone and the others keep their order; an index past the end removes nothing |
| CategoryManagerModel.LowerLabels | components/Settings/CategoryManager.tsx:105 | the lower-cased labels, at most one per category |
| CategoryManagerModel.LabelInLowerLabels | components/Settings/CategoryManager.tsx:105 | each category's lower-cased label is among them |
| CategoryManagerModel.DigitsAreLower | components/Settings/CategoryManager.tsx:106 | a counter's digits are unchanged by lower-casing |
| CategoryManagerModel.LowerCandidate | components/Settings/CategoryManager.tsx:105-106 | the k-th candidate lower-cases to the lowered name, a space and k |
| CategoryManagerModel.CandidatesDiffer | components/Settings/CategoryManager.tsx:105-108 | different counters give names that differ ignoring case |
| CategoryManagerModel.LowerCandidates | components/Settings/CategoryManager.tsx:105-108 | the first k + 1 candidates are k + 1 different lowered names, none equal to a later one |
| CategoryManagerModel.CandidatesTaken | components/Settings/CategoryManager.tsx:105 | taken candidates are all among the lowered labels |
| CategoryManagerModel.TakenBound | components/Settings/CategoryManager.tsx:105-108 | at most as many candidates are taken as there are categories, so the loop ends |
| CategoryManagerModel.TakenOneMore | components/Settings/CategoryManager.tsx:105-108 | one more taken candidate keeps the count within the categories |
| CategoryManagerModel.FirstFreeFrom | components/Settings/CategoryManager.tsx:105-108 | the first candidate from k on that no label takes |
| CategoryManagerModel.FreeNameIndex | components/Settings/CategoryManager.tsx:105-108 | the counter the loop stops at: its candidate is free and every earlier one is taken |
| CategoryManagerModel.FreeNameIsFirst | components/Settings/CategoryManager.tsx:105-108 | that counter is the only one with that property |
| CategoryManagerModel.NewCategoryId | components/Settings/CategoryManager.tsx:110-111 | the id of a two-word name with counter k is the lowered words joined by '_', then "_k" when k > 0 |
| CategoryManagerModel.NewCategory | components/Settings/CategoryManager.tsx:110-115 | the category `handleAdd` appends; its id by `CategoryManagerModel.NewCategoryId` |
| CategoryManagerModel.SlugOfTwo | components/Settings/CategoryManager.tsx:111 | `toLowerCase().replace(/\s+/g, '_')` of two words |
| CategoryManagerModel.SlugOfThree | components/Settings/CategoryManager.tsx:111 | the same with a counter |
| CategoryManagerModel.DefaultCategoryId | components/Settings/CategoryManager.tsx:101-115 | the added category's id is "new_category", or "new_category_k" for counter k |
| CategoryManagerModel.Moved | components/Settings/CategoryManager.tsx:142-144 | the two splices keep the length and put the dragged category at the target (the end for a target past it) |
| CategoryManagerModel.MovedIsPermutation | components/Settings/CategoryManager.tsx:142-144 | dragging rearranges the categories without losing or adding any |
| CategoryManagerModel.InsertMultiset | components/Settings/CategoryManager.tsx:144 | inserting adds exactly the one element |
| CategoryManagerModel.UniqueName | components/Settings/CategoryManager.tsx:101-108 | the while loop stops at the first free candidate |
| CategoryManagerModel.CategoryManager.constructor | components/Settings/CategoryManager.tsx:18-23 | no error, no drag, and an editing value per category |
| CategoryManagerModel.CategoryManager.ChangeCategories | components/Settings/CategoryManager.tsx:25-30 | the effect resets the editing values from the new list |
| CategoryManagerModel.CategoryManager.NameChange | components/Settings/CategoryManager.tsx:32-35 | only that category's editing value changes; the list, the error and both drag indices stay |
| CategoryManagerModel.CategoryManager.NameBlur | components/Settings/CategoryManager.tsx:37-64 | a refused name restores the editing value and sets the source's message: "Category name cannot be empty" for a blank name, else the duplicate message naming the trimmed name; an accepted one renames the category, resets the editing values and clears the error; the drag indices stay |
| CategoryManagerModel.IsDuplicateLabel | components/Settings/CategoryManager.tsx:48-50 | another category has the same label in lower case; the refusal condition of `CategoryManagerModel.Renamed` |
| CategoryManagerModel.CategoryManager.ColorChange | components/Settings/CategoryManager.tsx:66-73 | the list gets the new colour and the editing values are reset from it; the error and both drag indices stay |
| CategoryManagerModel.CategoryManager.VisibilityToggle | components/Settings/CategoryManager.tsx:75-82 | the list gets the flipped visibility and the editing values are reset from it; the error and both drag indices stay |
| CategoryManagerModel.CategoryManager.Delete | components/Settings/CategoryManager.tsx:84-92 | the last category cannot be deleted (the error is set, nothing else changes); otherwise it is removed and the error clears; both drag indices stay |
| CategoryManagerModel.CategoryManager.Add | components/Settings/CategoryManager.tsx:94-120 | at four categories nothing is added and an error is set; otherwise the new category with the first free name is appended and the error clears; both drag indices stay |
| CategoryManagerModel.CategoryManager.DragStart | components/Settings/CategoryManager.tsx:122-125 | the dragged index is recorded; the list, the editing values, the error and the hovered index stay |
| CategoryManagerModel.CategoryManager.DragOver | components/Settings/CategoryManager.tsx:127-131 | the hovered index is recorded; the list, the editing values, the error and the dragged index stay |
| CategoryManagerModel.CategoryManager.DragEnd | components/Settings/CategoryManager.tsx:133-136 | both drag indices clear; the list, the editing values and the error stay |
| CategoryManagerModel.CategoryManager.Drop | components/Settings/CategoryManager.tsx:138-148 | without a drag or onto itself nothing happens; otherwise the dragged category moves to the target and the drag clears; the error stays in both cases |
| EventTableEditorModel.Merge | components/Timeline/EventTableEditor.tsx:78-88 | a change keeps the row's id, and an empty change leaves the row as it is |
| EventTableEditorModel.CanApply | components/Timeline/EventTableEditor.tsx:48-71 | Apply is enabled exactly when something changed, every draft is valid and every empty row is valid or blank |
| EventTableEditorModel.IsValidEvent | components/Timeline/EventTableEditor.tsx:48-54 | `isValidEvent`: a non-blank title, a start date and a category; used by `EventTableEditorModel.CanApply` and `EventTableEditorModel.Promote` |
| EventTableEditorModel.OfCategoryExactly | components/Timeline/EventTableEditor.tsx:40-46 | the filter keeps exactly the events of that category |
| EventTableEditorModel.DisplayEventsShape | components/Timeline/EventTableEditor.tsx:40-46 | the empty rows come last, after exactly the drafts of the active category (all drafts when none is active) |
| EventTableEditorModel.DisplayEvents | components/Timeline/EventTableEditor.tsx:40-46 | `displayEvents`; characterised by `EventTableEditorModel.DisplayEventsShape` |
| EventTableEditorModel.RowIndex | components/Timeline/EventTableEditor.tsx:80 | `findIndex`: the first row with the id, -1 exactly when none has it |
| EventTableEditorModel.RemoveId | components/Timeline/EventTableEditor.tsx:73-76 | deleting never adds rows |
| EventTableEditorModel.RemoveIdExactly | components/Timeline/EventTableEditor.tsx:73-76 | a row stays exactly when its id differs |
| EventTableEditorModel.MergeById | components/Timeline/EventTableEditor.tsx:104-108 | the change applies to the rows with the id and to no other |
| EventTableEditorModel.Promote | components/Timeline/EventTableEditor.tsx:90-100 | a promoted row gets a fresh id, its end date defaulting to the start date |
| EventTableEditorModel.StartDateChangeOrdersDates | components/Timeline/EventTableEditor.tsx:208-214 | after a start-date change the end date is empty or not before the start, and it moves only if it was before the new start |
| EventTableEditorModel.StartDateChange | components/Timeline/EventTableEditor.tsx:208-214 | the change of the start-date input; characterised by `EventTableEditorModel.StartDateChangeOrdersDates` |
| EventTableEditorModel.EventTableEditor.constructor | components/Timeline/EventTableEditor.tsx:25-29 | no filter, no empty rows, the drafts are the events, nothing changed |
| EventTableEditorModel.EventTableEditor.Open | components/Timeline/EventTableEditor.tsx:32-38 | opening resets the drafts, the empty rows and the change flag |
| EventTableEditorModel.EventTableEditor.SetActiveCategory | components/Timeline/EventTableEditor.tsx:25 | only the filter changes |
| EventTableEditorModel.EventTableEditor.DeleteEvent | components/Timeline/EventTableEditor.tsx:73-76 | the draft is removed and the change flag is set |
| EventTableEditorModel.EventTableEditor.EventChange | components/Timeline/EventTableEditor.tsx:78-111 | a change to a draft updates it; a change to an empty row updates the row, and a row that becomes valid moves to the drafts with a fresh id |
| EventTableEditorModel.EventTableEditor.AddRow | components/Timeline/EventTableEditor.tsx:113-124 | a blank row is added, up to ten; the drafts, the change flag and the category filter stay |
| EventTableEditorModel.EventTableEditor.DeleteEmptyRow | components/Timeline/EventTableEditor.tsx:126-128 | the empty row is removed; the drafts, the change flag and the category filter stay |
| EventTableEditorModel.EventTableEditor.DeleteRow | components/Timeline/EventTableEditor.tsx:244-246 | the button removes an empty row when the id is one (change flag kept), else the draft (change flag set); the category filter stays in both cases |
| EventTableEditorModel.EventTableEditor.ApplyChanges | components/Timeline/EventTableEditor.tsx:130-134 | the drafts are handed on exactly when Apply is enabled |
| EventTableEditorModel.PromotedRowLeaves | components/Timeline/EventTableEditor.tsx:90-100 | a promoted row is valid and no empty row keeps its id |
| EventFormModel.OrElse | src/components/EventForm/EventForm.tsx:21-24 | JavaScript's or-operator on strings: empty only when both are, and the first when it is set |
| EventFormModel.FirstCategoryId | src/components/EventForm/EventForm.tsx:23 | the first category's id, or empty |
| EventFormModel.Autofill | src/components/EventForm/EventForm.tsx:38-42 | a focused, empty end date takes the start date |
| EventFormModel.AutofillSettles | src/components/EventForm/EventForm.tsx:38-42 | the effect settles after one run, and leaves the end date empty only when it was empty and could not be filled |
| EventFormModel.SubmissionOf | src/components/EventForm/EventForm.tsx:44-67 | a missing category and an over-long title are refused, in that order; otherwise the fields are submitted, the end date defaulting to the start |
| EventFormModel.ResubmitKeepsEvent | src/components/EventForm/EventForm.tsx:44-67 | submitting an unchanged complete event gives back its data |
| EventFormModel.SubmittedIsComplete | src/components/EventForm/EventForm.tsx:44-67 | a submission has a category, a title of at most 55 characters and an end date when it has a start date |
| EventFormModel.EventForm.constructor | src/components/EventForm/EventForm.tsx:21-35 | the initial state, then the mount effect copying an initial event |
| EventFormModel.EventForm.LoadEvent | src/components/EventForm/EventForm.tsx:28-35 | a new initial event is copied into the fields |
| EventFormModel.EventForm.SetTitle | src/components/EventForm/EventForm.tsx:81 | only the title changes |
| EventFormModel.EventForm.SetCategory | src/components/EventForm/EventForm.tsx:96 | only the category changes |
| EventFormModel.EventForm.SetStartDate | src/components/EventForm/EventForm.tsx:118 | the start date changes and the effect may fill the end date |
| EventFormModel.EventForm.SetEndDate | src/components/EventForm/EventForm.tsx:132 | the end date changes, filled if focused and cleared |
| EventFormModel.EventForm.FocusEndDate | src/components/EventForm/EventForm.tsx:133 | focusing fills an empty end date from the start date |
| EventFormModel.EventForm.BlurEndDate | src/components/EventForm/EventForm.tsx:134 | only the focus flag clears |
| EventFormModel.EventForm.Submit | src/components/EventForm/EventForm.tsx:44-67 | the outcome is `SubmissionOf` the fields; a submission clears the form, a refusal leaves it |

## Left out

- Time zones and JavaScript `Date`: dates stay the strings the events carry. A "YYYY-MM-DD" string is read by position, and `new Date(...).getTime()` is replaced by its day key yyyymmdd. For dates that `Date` reads as real calendar days the keys have the same order; the two differences below remain.
- CategoryHeights.EventsOverlap: a "YYYY-MM-DD"-shaped date whose month or day is out of range (such as "2024-13-01" or "2024-00-10") still gets a day key and can overlap, whereas `new Date` gives Invalid Date and every comparison is false; and text of another shape that `Date` still parses (such as "2024/01/05") never overlaps in the model. The same applies to `CategoryHeights.StartKey` in the sort.
- Callers are assumed to pass ISO dates where the layout code reads them (`HasIsoDates`, `AllIsoDates`), and a positive content width; the source does not check either.
- `toLowerCase` is modelled on ASCII letters only; other Unicode case mappings and UTF-16 code units are not modelled.
- IEEE-754 floating point: pixel positions and widths are `real`, so rounding error and NaN results are not modelled.
- Reading an `.xlsx` workbook (the `xlsx` library), the file-type check, `FileReader` and the instructions sheet of the Excel template are not modelled; `parseExcelDate` is a parameter of the row conversion.
- File downloads (`Blob`, object URLs, anchor clicks) are not modelled; today's date is a parameter of the export file name.
- `JSON.stringify` comparisons in the change tracker are modelled as structural equality of the values.
- `DEFAULT_TIMELINE_TITLE` comes from src/constants/defaults.ts, which is not part of this model; it is a constructor argument.
- The `CATEGORIES` import used by the category-height hook is a category-list parameter.
- `labelWidth` and its default 120 are parameters of the scroll-indicator position.
- `crypto.randomUUID` and other fresh ids are parameters of the operations that create rows or events.
- `alert`, `confirm` and console output are not modelled; a message the source would show is a returned value.
- The Supabase queries of `saveEvents` are replaced by an `Apply` step over the stored rows; network failures, retries and concurrency are not modelled.
- The `TimelineCategory` union type is modelled as `string`.
- `onCategoriesChange` is assumed to feed the new list back into the category manager; any other parent behaviour is not modelled.
- CategoryManagerModel.CategoryManager.Drop: requires the dragged index to be a valid position, which the source's drag handlers guarantee but do not check.
- `Number` on a date piece is modelled for blank text and decimal digits only; signs, decimal points, exponents, hexadecimal, `Infinity` and the rounding of values above 2^53 are not modelled (such a piece prints as `NaN` in the model).
- The `try`/`catch` around each spreadsheet row ("Row n: <message>", src/components/ImportExcelButton/ImportExcelButton.tsx lines 202-205) is not modelled: `parseDate` is a total parameter and the modelled checks cannot throw.
- The `try`/`catch` around each CSV line ("Failed to parse line") is not modelled, because the modelled parser cannot throw.
- The source copy of src/utils/timelineUtils.ts carries a mis-decoded en dash in the date-range label; the model uses the en dash '–'.
- In components/Timeline/EventTableEditor.tsx, deleting an empty new row does not mark the table as changed; the model follows the code.
- src/components/Timeline/TimelineCategoryEvents.tsx is presentation and is not modelled; it calls the stacker without months, which the model covers as an empty month list (every column 0).
- TimelineEvent.GridColumns: its own contract states only when there is no column; the column bounds are stated by the lemmas beside it.
- Rendering, styling, animation, timers, hover and tooltip state, and the hooks `useAutosave`, `useLocalDraft` and `useTimelineScroll` are not modelled.

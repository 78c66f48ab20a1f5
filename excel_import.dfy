/**
  The spreadsheet import of src/components/ImportExcelButton/ImportExcelButton.tsx: the
  rows after the two header rows are validated one by one, categories are matched by
  normalised id or label, mismatches are grouped by category, and the events are handed
  on only when no row failed and at least one event was found.

  Reading the workbook is not modelled: a row arrives as its four cell texts, with `""`
  for an absent cell. The date parser `parseExcelDate` is a parameter.
*/
module ExcelImport {
  import opened Types
  import opened Strings
  import opened CsvParser
  import opened Mismatches

  /** The cells of one sheet row (`raw: false` makes every cell a string). */
  datatype ExcelRow = ExcelRow(title: string, startDate: string, endDate: string, category: string)

  /** The date parser: a "YYYY-MM-DD" text, or nothing. */
  type DateParser = string -> Option<string>

  /** `normalizeCategory` (lines 24-30) is the transformation of the CSV importer,
      `CsvParser.NormalizeCategory`, character for character. */
  predicate CategoryMatches(cat: CategoryConfig, rawCategory: string) {
    NormalizeCategory(cat.id) == NormalizeCategory(rawCategory) ||
    NormalizeCategory(cat.labelText) == NormalizeCategory(rawCategory)
  }

  /** No category matches the input. */
  predicate NoMatch(categories: seq<CategoryConfig>, rawCategory: string) {
    forall i :: 0 <= i < |categories| ==> !CategoryMatches(categories[i], rawCategory)
  }

  /** `findMatchingCategory`: a category whose normalised id or label equals the
      normalised input, or nothing when there is none. */
  function FindMatchingCategory(categories: seq<CategoryConfig>, rawCategory: string): (r: Option<CategoryConfig>)
    ensures r.None? <==> NoMatch(categories, rawCategory)
    ensures r.Some? ==> r.value in categories && CategoryMatches(r.value, rawCategory)
  {
    if categories == [] then None
    else if CategoryMatches(categories[0], rawCategory) then Some(categories[0])
    else
      FindMatchingCategory(categories[1..], rawCategory)
  }

  /** `Array.find` returns the first match: the category at index i when it matches and
      no earlier one does. */
  lemma {:induction false} FindIsFirst(categories: seq<CategoryConfig>, rawCategory: string, i: nat)
    requires i < |categories| && CategoryMatches(categories[i], rawCategory)
    requires forall j :: 0 <= j < i ==> !CategoryMatches(categories[j], rawCategory)
    ensures FindMatchingCategory(categories, rawCategory) == Some(categories[i])
  {
    if i > 0 {
      assert !CategoryMatches(categories[0], rawCategory);
      FindIsFirst(categories[1..], rawCategory, i - 1);
    }
  }

  datatype ExcelError =
    | Missing(row: nat, fields: seq<string>)
    | TitleTooLong(row: nat)
    | InvalidStartDate(row: nat)
    | InvalidEndDate(row: nat)

  /** The text pushed onto `errors` for a row error. */
  function ErrorMessage(e: ExcelError): string {
    match e
    case Missing(row, fields) => "Row " + NatToString(row) + ": Missing " + Join(fields, ", ")
    case TitleTooLong(row) =>
      "Row " + NatToString(row) + ": Title exceeds " + NatToString(MAX_TITLE_LENGTH) + " characters"
    case InvalidStartDate(row) => "Row " + NatToString(row) + ": Invalid Start Date format (use MM/DD/YYYY)"
    case InvalidEndDate(row) => "Row " + NatToString(row) + ": Invalid End Date format (use MM/DD/YYYY)"
  }

  /** What the `forEach` callback does with one row. */
  datatype RowOutcome =
    | Skipped
    | Failed(error: ExcelError)
    | Mismatched(category: string, row: nat)
    | Emitted(event: EventData)

  /** The `missingFields` list: a blank title, an absent start date, a blank category. */
  function MissingFields(row: ExcelRow): (names: seq<string>)
    ensures names == [] <==> Trim(row.title) != [] && row.startDate != [] && Trim(row.category) != []
  {
    (if Trim(row.title) == [] then ["Event Title"] else []) +
    (if row.startDate == [] then ["Start Date"] else []) +
    (if Trim(row.category) == [] then ["Category"] else [])
  }

  /** A row with no title, start date or category cell is skipped. */
  predicate IsSkippedRow(row: ExcelRow) {
    row.title == [] && row.startDate == [] && row.category == []
  }

  /** The body of the callback for the row numbered `rowNumber`. */
  function ClassifyRow(row: ExcelRow, rowNumber: nat, categories: seq<CategoryConfig>, parseDate: DateParser): (r: RowOutcome)
    ensures r.Skipped? <==> IsSkippedRow(row)
    ensures r.Failed? ==> r.error.row == rowNumber
    ensures r.Mismatched? ==>
      r.row == rowNumber && r.category == Trim(row.category) &&
      FindMatchingCategory(categories, Trim(row.category)).None?
    ensures !IsSkippedRow(row) ==> r == ClassifyFields(row, rowNumber, categories, parseDate)
  {
    if IsSkippedRow(row) then Skipped
    else ClassifyFields(row, rowNumber, categories, parseDate)
  }

  /** The checks on a row that is not skipped, in the source's order. */
  function ClassifyFields(row: ExcelRow, rowNumber: nat, categories: seq<CategoryConfig>, parseDate: DateParser): (r: RowOutcome)
    ensures !r.Skipped?
    ensures r.Failed? ==> r.error.row == rowNumber
    ensures r.Mismatched? ==>
      r.row == rowNumber && r.category == Trim(row.category) &&
      FindMatchingCategory(categories, Trim(row.category)).None?
    ensures r.Emitted? ==>
      var e := r.event;
      var m := FindMatchingCategory(categories, Trim(row.category));
      MissingFields(row) == [] && e.title == Trim(row.title) && |e.title| <= MAX_TITLE_LENGTH &&
      Some(e.startDate) == parseDate(row.startDate) &&
      Some(e.endDate) == (if row.endDate == [] then parseDate(row.startDate) else parseDate(row.endDate)) &&
      m.Some? && e.category == m.value.id
    // Which outcome a row gets: the first failing check, in the source's order.
    ensures r == Failed(Missing(rowNumber, MissingFields(row))) <==> MissingFields(row) != []
    ensures r == Failed(TitleTooLong(rowNumber)) <==>
      MissingFields(row) == [] && |Trim(row.title)| > MAX_TITLE_LENGTH
    ensures r == Failed(InvalidStartDate(rowNumber)) <==>
      MissingFields(row) == [] && |Trim(row.title)| <= MAX_TITLE_LENGTH &&
      parseDate(row.startDate).None?
    ensures r == Failed(InvalidEndDate(rowNumber)) <==>
      MissingFields(row) == [] && |Trim(row.title)| <= MAX_TITLE_LENGTH &&
      parseDate(row.startDate).Some? && row.endDate != [] && parseDate(row.endDate).None?
    ensures r.Mismatched? <==>
      MissingFields(row) == [] && |Trim(row.title)| <= MAX_TITLE_LENGTH &&
      parseDate(row.startDate).Some? && (row.endDate == [] || parseDate(row.endDate).Some?) &&
      FindMatchingCategory(categories, Trim(row.category)).None?
    ensures r.Emitted? <==>
      MissingFields(row) == [] && |Trim(row.title)| <= MAX_TITLE_LENGTH &&
      parseDate(row.startDate).Some? && (row.endDate == [] || parseDate(row.endDate).Some?) &&
      FindMatchingCategory(categories, Trim(row.category)).Some?
  {
    var missing := MissingFields(row);
    if missing != [] then Failed(Missing(rowNumber, missing))
    else
      var title := Trim(row.title);
      if |title| > MAX_TITLE_LENGTH then Failed(TitleTooLong(rowNumber))
      else
        var startDate := parseDate(row.startDate);
        if startDate.None? then Failed(InvalidStartDate(rowNumber))
        else
          var endDate := if row.endDate != [] then parseDate(row.endDate) else startDate;
          if endDate.None? then Failed(InvalidEndDate(rowNumber))
          else
            var rawCategory := Trim(row.category);
            var matchingCategory := FindMatchingCategory(categories, rawCategory);
            if matchingCategory.None? then Mismatched(rawCategory, rowNumber)
            else Emitted(EventData(title, startDate.value, endDate.value, matchingCategory.value.id))
  }

  /** The outcome of each row after the first two; the row at position i is row i + 3. */
  function Outcomes(rows: seq<ExcelRow>, categories: seq<CategoryConfig>, parseDate: DateParser): (outs: seq<RowOutcome>)
    ensures |outs| == |rows|
    ensures forall i :: 0 <= i < |rows| ==> outs[i] == ClassifyRow(rows[i], i + 3, categories, parseDate)
  {
    seq(|rows|, i requires 0 <= i < |rows| => ClassifyRow(rows[i], i + 3, categories, parseDate))
  }

  /** `allRows.slice(2)`. */
  function DataRows(allRows: seq<ExcelRow>): seq<ExcelRow> {
    if |allRows| < 2 then [] else allRows[2..]
  }

  datatype Acc = Acc(events: seq<EventData>, errors: seq<string>, mismatches: seq<Entry>)

  /** One row's effect on `events`, `errors` and `categoryMismatches`. */
  function Step(acc: Acc, outcome: RowOutcome): Acc {
    match outcome
    case Skipped => acc
    case Failed(e) => acc.(errors := acc.errors + [ErrorMessage(e)])
    case Mismatched(c, row) => acc.(mismatches := Record(acc.mismatches, c, row))
    case Emitted(ev) => acc.(events := acc.events + [ev])
  }

  /** The three collections after the `forEach` over the outcomes. */
  function Fold(outs: seq<RowOutcome>): Acc {
    if outs == [] then Acc([], [], []) else Step(Fold(outs[..|outs| - 1]), outs[|outs| - 1])
  }

  function MismatchMessage(m: Entry): string {
    "Category \"" + m.category + "\" does not match any timeline categories. " +
    "Events skipped in rows: " + RowList(m.rows)
  }

  /** The category-mismatch messages, in the Map's order. */
  function MismatchMessages(ms: seq<Entry>): (r: seq<string>)
    ensures |r| == |ms|
    ensures forall i :: 0 <= i < |ms| ==> r[i] == MismatchMessage(ms[i])
  {
    if ms == [] then []
    else MismatchMessages(ms[..|ms| - 1]) + [MismatchMessage(ms[|ms| - 1])]
  }

  /** The events and the errors once every row has been seen. */
  datatype ParseResult = ParseResult(events: seq<EventData>, errors: seq<string>)

  function ParseRowsOf(allRows: seq<ExcelRow>, categories: seq<CategoryConfig>, parseDate: DateParser): ParseResult {
    var acc := Fold(Outcomes(DataRows(allRows), categories, parseDate));
    ParseResult(acc.events, acc.errors + MismatchMessages(acc.mismatches))
  }

  /** The end of the handler: an alert, or the call of `onImport`. */
  datatype Decision = Alert(message: string) | Import(events: seq<EventData>, categories: seq<CategoryConfig>)

  const NO_EVENTS_MESSAGE: string := "Error importing Excel file: No valid events found in the Excel file"

  /** All or nothing: any error is shown and nothing is imported; no events is an error
      too; otherwise every event is imported with the categories as they are. */
  function Decide(result: ParseResult, categories: seq<CategoryConfig>): (d: Decision)
    ensures d.Import? <==> result.errors == [] && result.events != []
    ensures d.Import? ==> d.events == result.events && d.categories == categories
    ensures result.errors != [] ==> d == Alert(Join(result.errors, "\n"))
  {
    if |result.errors| > 0 then Alert(Join(result.errors, "\n"))
    else if |result.events| == 0 then Alert(NO_EVENTS_MESSAGE)
    else Import(result.events, categories)
  }

  function ImportOf(allRows: seq<ExcelRow>, categories: seq<CategoryConfig>, parseDate: DateParser): Decision {
    Decide(ParseRowsOf(allRows, categories, parseDate), categories)
  }

  /** The row loop, the message loop and the decision of `handleFileChange`. */
  method ImportRows(allRows: seq<ExcelRow>, categories: seq<CategoryConfig>, parseDate: DateParser)
    returns (decision: Decision)
    ensures decision == ImportOf(allRows, categories, parseDate)
  {
    var rows := DataRows(allRows);
    ghost var outs := Outcomes(rows, categories, parseDate);
    var events: seq<EventData> := [];
    var errors: seq<string> := [];
    var categoryMismatches: seq<Entry> := [];
    for index := 0 to |rows|
      invariant Acc(events, errors, categoryMismatches) == Fold(outs[..index])
    {
      var outcome := ClassifyRow(rows[index], index + 3, categories, parseDate);
      match outcome {
        case Skipped =>
        case Failed(e) => errors := errors + [ErrorMessage(e)];
        case Mismatched(c, row) => categoryMismatches := Record(categoryMismatches, c, row);
        case Emitted(ev) => events := events + [ev];
      }
      FoldSnoc(outs, index);
    }
    assert outs[..|rows|] == outs;
    errors := AppendMismatchMessages(errors, categoryMismatches);
    if |errors| > 0 {
      decision := Alert(Join(errors, "\n"));
    } else if |events| == 0 {
      decision := Alert(NO_EVENTS_MESSAGE);
    } else {
      decision := Import(events, categories);
    }
  }

  /** The `categoryMismatches.forEach` loop pushing one message per entry. */
  method AppendMismatchMessages(errors: seq<string>, categoryMismatches: seq<Entry>) returns (r: seq<string>)
    ensures r == errors + MismatchMessages(categoryMismatches)
  {
    r := errors;
    assert errors + MismatchMessages(categoryMismatches[..0]) == errors;
    for j := 0 to |categoryMismatches|
      invariant r == errors + MismatchMessages(categoryMismatches[..j])
    {
      MessagesSnoc(categoryMismatches, j);
      AppendAssociative(errors, MismatchMessages(categoryMismatches[..j]), [MismatchMessage(categoryMismatches[j])]);
      r := r + [MismatchMessage(categoryMismatches[j])];
    }
    assert categoryMismatches[..|categoryMismatches|] == categoryMismatches;
  }

  lemma FoldSnoc(outs: seq<RowOutcome>, i: nat)
    requires i < |outs|
    ensures Fold(outs[..i + 1]) == Step(Fold(outs[..i]), outs[i])
  {
    PrefixOfPrefix(outs, i + 1, i);
  }

  lemma MessagesSnoc(ms: seq<Entry>, j: nat)
    requires j < |ms|
    ensures MismatchMessages(ms[..j + 1]) == MismatchMessages(ms[..j]) + [MismatchMessage(ms[j])]
  {
    PrefixOfPrefix(ms, j + 1, j);
  }

  // ---------------------------------------------------------------------------
  // What the fold collects
  // ---------------------------------------------------------------------------

  /** The events of the emitting rows, in row order. */
  function EventsOf(outs: seq<RowOutcome>): seq<EventData> {
    if outs == [] then []
    else
      var last := outs[|outs| - 1];
      EventsOf(outs[..|outs| - 1]) + (if last.Emitted? then [last.event] else [])
  }

  /** The messages of the failing rows, in row order. */
  function RowErrorsOf(outs: seq<RowOutcome>): seq<string> {
    if outs == [] then []
    else
      var last := outs[|outs| - 1];
      RowErrorsOf(outs[..|outs| - 1]) + (if last.Failed? then [ErrorMessage(last.error)] else [])
  }

  /** The (trimmed raw category, row) pairs of the mismatching rows, in row order. */
  function MismatchPairsOf(outs: seq<RowOutcome>): seq<(string, nat)> {
    if outs == [] then []
    else
      var last := outs[|outs| - 1];
      MismatchPairsOf(outs[..|outs| - 1]) + (if last.Mismatched? then [(last.category, last.row)] else [])
  }

  function SkippedCount(outs: seq<RowOutcome>): nat {
    if outs == [] then 0
    else SkippedCount(outs[..|outs| - 1]) + (if outs[|outs| - 1].Skipped? then 1 else 0)
  }

  lemma {:induction false} FoldEvents(outs: seq<RowOutcome>)
    ensures Fold(outs).events == EventsOf(outs)
  {
    if outs != [] {
      FoldEvents(outs[..|outs| - 1]);
    }
  }

  lemma {:induction false} FoldErrors(outs: seq<RowOutcome>)
    ensures Fold(outs).errors == RowErrorsOf(outs)
  {
    if outs != [] {
      FoldErrors(outs[..|outs| - 1]);
    }
  }

  lemma {:induction false} FoldMismatches(outs: seq<RowOutcome>)
    ensures Fold(outs).mismatches == Recorded(MismatchPairsOf(outs))
  {
    if outs != [] {
      var init := outs[..|outs| - 1];
      FoldMismatches(init);
      var pairs := MismatchPairsOf(outs);
      if outs[|outs| - 1].Mismatched? {
        assert pairs[..|pairs| - 1] == MismatchPairsOf(init);
      } else {
        assert pairs == MismatchPairsOf(init);
      }
    }
  }

  /** Every row that is not skipped yields exactly one event, one error or one mismatch. */
  lemma {:induction false} OneResultPerRow(outs: seq<RowOutcome>)
    ensures |EventsOf(outs)| + |RowErrorsOf(outs)| + |MismatchPairsOf(outs)| + SkippedCount(outs) == |outs|
  {
    if outs != [] {
      OneResultPerRow(outs[..|outs| - 1]);
    }
  }

  /** The result lists the events in row order, then the row errors in row order, then
      one message per distinct trimmed category of the mismatching rows, in the order
      those categories first occur. */
  lemma ParseRowsCollects(allRows: seq<ExcelRow>, categories: seq<CategoryConfig>, parseDate: DateParser)
    ensures var outs := Outcomes(DataRows(allRows), categories, parseDate);
      var ms := Recorded(MismatchPairsOf(outs));
      var r := ParseRowsOf(allRows, categories, parseDate);
      r.events == EventsOf(outs) && r.errors == RowErrorsOf(outs) + MismatchMessages(ms)
  {
    var outs := Outcomes(DataRows(allRows), categories, parseDate);
    FoldEvents(outs);
    FoldErrors(outs);
    FoldMismatches(outs);
  }

  /** `onImport` receives events only from a sheet in which every row that is not skipped
      became an event: no row failed and no category was unmatched. */
  lemma ImportIsAllOrNothing(allRows: seq<ExcelRow>, categories: seq<CategoryConfig>, parseDate: DateParser)
    ensures var outs := Outcomes(DataRows(allRows), categories, parseDate);
      ImportOf(allRows, categories, parseDate).Import? <==>
        RowErrorsOf(outs) == [] && MismatchPairsOf(outs) == [] && EventsOf(outs) != []
  {
    var outs := Outcomes(DataRows(allRows), categories, parseDate);
    ParseRowsCollects(allRows, categories, parseDate);
    if MismatchPairsOf(outs) != [] {
      RecordedNonEmpty(MismatchPairsOf(outs));
    }
  }

  /** A Map that has recorded a pair is not empty. */
  lemma RecordedNonEmpty(pairs: seq<(string, nat)>)
    requires pairs != []
    ensures Recorded(pairs) != []
  {
    RecordedKeys(pairs);
    assert pairs[0].0 in CategoriesOf(pairs);
    assert pairs[0].0 in Keys(Recorded(pairs));
  }
}

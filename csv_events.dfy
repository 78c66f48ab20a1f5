/**
  `parseCSVEvents` of src/utils/csvParser.ts: the file is split into lines, the two
  header lines and the blank or instruction lines are dropped, and each remaining line
  is parsed and classified as skipped, a row error, a category mismatch or an event.
  Mismatches are grouped by category and reported after the row errors.
*/
module CsvEvents {
  import opened Types
  import opened Strings
  import opened DateUtils
  import opened CsvParser
  import opened Mismatches

  // ---------------------------------------------------------------------------
  // Lines
  // ---------------------------------------------------------------------------

  /** `.replace(/\r\n?/g, '\n')`: CRLF and a lone CR both become LF. */
  function NormalizeLineEndings(s: string): (r: string)
    ensures '\r' !in r
    ensures |r| <= |s|
  {
    if s == [] then []
    else if s[0] == '\r' then
      "\n" + NormalizeLineEndings(if |s| > 1 && s[1] == '\n' then s[2..] else s[1..])
    else [s[0]] + NormalizeLineEndings(s[1..])
  }

  /** Text without CR in front is copied unchanged. */
  lemma {:induction false} LineEndingsCopy(x: string, t: string)
    requires '\r' !in x
    ensures NormalizeLineEndings(x + t) == x + NormalizeLineEndings(t)
  {
    if x != [] {
      assert (x + t)[0] == x[0] && (x + t)[1..] == x[1..] + t;
      LineEndingsCopy(x[1..], t);
      assert x == [x[0]] + x[1..];
    } else {
      assert x + t == t;
    }
  }

  /** Text without CR is left as it is. */
  lemma LineEndingsWithoutCr(s: string)
    requires '\r' !in s
    ensures NormalizeLineEndings(s) == s
  {
    LineEndingsCopy(s, "");
    assert s + "" == s;
  }

  /** Lines joined by CRLF, or by lone CRs, come out joined by LF. */
  lemma {:induction false} LineEndingsOfJoin(lines: seq<string>, eol: string)
    requires eol == "\r\n" || eol == "\r"
    requires forall k :: 0 <= k < |lines| ==> '\r' !in lines[k] && '\n' !in lines[k]
    ensures NormalizeLineEndings(Join(lines, eol)) == Join(lines, "\n")
  {
    if |lines| == 1 {
      LineEndingsWithoutCr(lines[0]);
    } else if |lines| > 1 {
      var rest := Join(lines[1..], eol);
      JoinCons(lines, eol);
      LineEndingsCopy(lines[0], eol + rest);
      JoinHeadNot(lines[1..], eol, '\n');
      LineBreak(eol, rest);
      LineEndingsOfJoin(lines[1..], eol);
      JoinCons(lines, "\n");
    }
  }

  /** One CRLF or lone CR, not followed by LF, becomes one LF. */
  lemma LineBreak(eol: string, rest: string)
    requires eol == "\r\n" || eol == "\r"
    requires rest == [] || rest[0] != '\n'
    ensures NormalizeLineEndings(eol + rest) == "\n" + NormalizeLineEndings(rest)
  {
    assert (eol + rest)[0] == '\r';
    if eol == "\r\n" {
      assert (eol + rest)[2..] == rest;
    } else {
      assert (eol + rest)[1..] == rest;
    }
  }

  /** The join does not start with `c` when neither the pieces nor the separator's first
      character is `c`. */
  lemma {:induction false} JoinHeadNot(parts: seq<string>, sep: string, c: char)
    requires forall k :: 0 <= k < |parts| ==> c !in parts[k]
    requires sep == [] || sep[0] != c
    ensures var j := Join(parts, sep); j == [] || j[0] != c
  {
    if |parts| > 1 {
      JoinHeadNot(parts[1..], sep, c);
      if parts[0] != [] {
        assert Join(parts, sep)[0] == parts[0][0];
      } else if sep != [] {
        assert Join(parts, sep) == sep + Join(parts[1..], sep);
      } else {
        assert Join(parts, sep) == Join(parts[1..], sep);
      }
    } else if |parts| == 1 && parts[0] != [] {
      assert parts[0][0] in parts[0];
    }
  }

  /** The filter on `lines.slice(2)`: not blank, and no "character limit" in any letter
      case. */
  predicate IsDataLine(line: string) {
    var t := Trim(line);
    t != [] && !Contains(ToLower(t), "character limit")
  }

  /** `.filter(...)` with `IsDataLine`, keeping the order of the lines. */
  function KeepDataLines(lines: seq<string>): (r: seq<string>)
    ensures |r| <= |lines|
    ensures forall l :: l in r <==> l in lines && IsDataLine(l)
  {
    if lines == [] then []
    else (if IsDataLine(lines[0]) then [lines[0]] else []) + KeepDataLines(lines[1..])
  }

  /** The filter keeps the order and the repeats of the lines, which fixes the row
      numbers: it distributes over concatenation, and one line is kept exactly when it is
      a data line. */
  lemma {:induction false} KeepDataLinesAppend(a: seq<string>, b: seq<string>)
    ensures KeepDataLines(a + b) == KeepDataLines(a) + KeepDataLines(b)
  {
    if a == [] {
      assert a + b == b;
    } else {
      assert (a + b)[1..] == a[1..] + b;
      KeepDataLinesAppend(a[1..], b);
    }
  }

  lemma KeepDataLinesSingle(l: string)
    ensures KeepDataLines([l]) == (if IsDataLine(l) then [l] else [])
  {
    assert [l][1..] == [];
  }

  lemma {:induction false} KeepAllDataLines(lines: seq<string>)
    requires forall k :: 0 <= k < |lines| ==> IsDataLine(lines[k])
    ensures KeepDataLines(lines) == lines
  {
    if lines != [] {
      KeepAllDataLines(lines[1..]);
    }
  }

  /** The lines after the line endings are normalised. */
  function LinesOf(content: string): (lines: seq<string>)
    ensures |lines| >= 1
  {
    Split(NormalizeLineEndings(content), '\n')
  }

  /** The data lines: all lines but the first two, without blank and instruction lines. */
  function DataLinesOf(content: string): (r: seq<string>)
    ensures forall l :: l in r ==> IsDataLine(l)
  {
    var lines := LinesOf(content);
    KeepDataLines(if |lines| < 2 then [] else lines[2..])
  }

  // ---------------------------------------------------------------------------
  // One row
  // ---------------------------------------------------------------------------

  /** `const [title = '', startDate = '', endDate = '', category = ''] = values`. */
  function FieldOr(values: seq<string>, k: nat): string {
    if k < |values| then values[k] else ""
  }

  /** `isEmptyRow`: every value is blank. */
  predicate IsEmptyRow(values: seq<string>) {
    forall k :: 0 <= k < |values| ==> Trim(values[k]) == []
  }

  /** The `missingFields` list, in the order the source checks them. */
  function MissingFields(title: string, startDate: string, category: string): (names: seq<string>)
    ensures names == [] <==> Trim(title) != [] && Trim(startDate) != [] && Trim(category) != []
  {
    (if Trim(title) == [] then ["title"] else []) +
    (if Trim(startDate) == [] then ["start date"] else []) +
    (if Trim(category) == [] then ["category"] else [])
  }

  datatype RowError =
    | Missing(row: nat, fields: seq<string>, title: string)
    | TitleTooLong(row: nat, title: string)
    | InvalidStartDate(row: nat, startDate: string)
    | InvalidEndDate(row: nat, endDate: string)

  /** The text pushed onto `errors` for a row error. */
  function ErrorMessage(e: RowError): string {
    match e
    case Missing(row, fields, title) =>
      "Row " + NatToString(row) + ": Missing " + Join(fields, ", ") + " for event \"" +
      (if title == [] then "Untitled" else title) + "\""
    case TitleTooLong(row, title) =>
      "Row " + NatToString(row) + ": Title \"" + title + "\" exceeds " + NatToString(MAX_TITLE_LENGTH) + " characters"
    case InvalidStartDate(row, startDate) =>
      "Row " + NatToString(row) + ": Invalid start date \"" + startDate + "\" - must be in MM/DD/YYYY format"
    case InvalidEndDate(row, endDate) =>
      "Row " + NatToString(row) + ": Invalid end date \"" + endDate + "\" - must be in MM/DD/YYYY format"
  }

  /** What the `forEach` callback does with one row. */
  datatype RowOutcome =
    | Skipped
    | Failed(error: RowError)
    | Mismatched(category: string, row: nat)
    | Emitted(event: EventData)

  /** The "YYYY-MM-DD" text of a date field, if `normalizeDate` accepts it. */
  predicate DateAccepted(field: string) {
    var d := NormalizeDate(field); d.Some? && IsValidDateFormat(d.value)
  }

  /** The body of the `dataLines.forEach` callback for the row numbered `row` with
      parsed `values`, given the normalised ids of the categories. */
  function ClassifyRow(values: seq<string>, row: nat, valid: set<string>): (r: RowOutcome)
    ensures r.Skipped? <==> IsEmptyRow(values)
    ensures r.Failed? ==> r.error.row == row
    ensures r.Mismatched? ==>
      r.row == row && r.category == FieldOr(values, 3) && NormalizeCategory(r.category) !in valid
    ensures r.Emitted? ==>
      var e := r.event;
      e.title == Trim(FieldOr(values, 0)) && e.title != [] &&
      |FieldOr(values, 0)| <= MAX_TITLE_LENGTH &&
      Some(e.startDate) == NormalizeDate(FieldOr(values, 1)) &&
      Some(e.endDate) == (if Trim(FieldOr(values, 2)) == [] then NormalizeDate(FieldOr(values, 1))
                          else NormalizeDate(FieldOr(values, 2))) &&
      e.category == NormalizeCategory(FieldOr(values, 3)) && e.category in valid
    ensures r.Emitted? <==>
      !IsEmptyRow(values) && MissingFields(FieldOr(values, 0), FieldOr(values, 1), FieldOr(values, 3)) == [] &&
      |FieldOr(values, 0)| <= MAX_TITLE_LENGTH && DateAccepted(FieldOr(values, 1)) &&
      (Trim(FieldOr(values, 2)) == [] || DateAccepted(FieldOr(values, 2))) &&
      NormalizeCategory(FieldOr(values, 3)) in valid
    ensures !IsEmptyRow(values) ==>
      r == ClassifyFields(FieldOr(values, 0), FieldOr(values, 1), FieldOr(values, 2), FieldOr(values, 3), row, valid)
  {
    if IsEmptyRow(values) then Skipped
    else ClassifyFields(FieldOr(values, 0), FieldOr(values, 1), FieldOr(values, 2), FieldOr(values, 3), row, valid)
  }

  /** The checks of the callback on a row that is not empty, in the source's order. */
  function ClassifyFields(title: string, startDate: string, endDate: string, category: string,
                          row: nat, valid: set<string>): (r: RowOutcome)
    ensures !r.Skipped?
    ensures r.Failed? ==> r.error.row == row
    ensures r.Mismatched? ==> r.row == row && r.category == category && NormalizeCategory(category) !in valid
    ensures r.Emitted? ==>
      var e := r.event;
      e.title == Trim(title) && e.title != [] && |title| <= MAX_TITLE_LENGTH &&
      Some(e.startDate) == NormalizeDate(startDate) &&
      Some(e.endDate) == (if Trim(endDate) == [] then NormalizeDate(startDate) else NormalizeDate(endDate)) &&
      e.category == NormalizeCategory(category) && e.category in valid
    ensures r.Emitted? <==>
      MissingFields(title, startDate, category) == [] && |title| <= MAX_TITLE_LENGTH &&
      DateAccepted(startDate) && (Trim(endDate) == [] || DateAccepted(endDate)) &&
      NormalizeCategory(category) in valid
    // Which error a failing row reports: the first failing check, in the source's order.
    ensures r == Failed(Missing(row, MissingFields(title, startDate, category), title)) <==>
      MissingFields(title, startDate, category) != []
    ensures r == Failed(TitleTooLong(row, title)) <==>
      MissingFields(title, startDate, category) == [] && |title| > MAX_TITLE_LENGTH
    ensures r == Failed(InvalidStartDate(row, startDate)) <==>
      MissingFields(title, startDate, category) == [] && |title| <= MAX_TITLE_LENGTH &&
      !DateAccepted(startDate)
    ensures r == Failed(InvalidEndDate(row, endDate)) <==>
      MissingFields(title, startDate, category) == [] && |title| <= MAX_TITLE_LENGTH &&
      DateAccepted(startDate) && Trim(endDate) != [] && !DateAccepted(endDate)
    ensures r.Mismatched? <==>
      MissingFields(title, startDate, category) == [] && |title| <= MAX_TITLE_LENGTH &&
      DateAccepted(startDate) && (Trim(endDate) == [] || DateAccepted(endDate)) &&
      NormalizeCategory(category) !in valid
  {
    var missing := MissingFields(title, startDate, category);
    if missing != [] then Failed(Missing(row, missing, title))
    else if |title| > MAX_TITLE_LENGTH then Failed(TitleTooLong(row, title))
    else if !DateAccepted(startDate) then Failed(InvalidStartDate(row, startDate))
    else if Trim(endDate) != [] && !DateAccepted(endDate) then Failed(InvalidEndDate(row, endDate))
    else
      var normalizedStartDate := NormalizeDate(startDate).value;
      var normalizedEndDate := if Trim(endDate) != [] then NormalizeDate(endDate).value else normalizedStartDate;
      var normalizedCategory := NormalizeCategory(category);
      if normalizedCategory !in valid then Mismatched(category, row)
      else Emitted(EventData(Trim(title), normalizedStartDate, normalizedEndDate, normalizedCategory))
  }

  /** An emitted event has a trimmed title of at most 55 characters, dates in the form
      `normalizeDate` produces and a category that is its own normalisation and the
      normalisation of a category id. */
  lemma EmittedIsWellFormed(values: seq<string>, row: nat, valid: set<string>)
    requires ClassifyRow(values, row, valid).Emitted?
    ensures var e := ClassifyRow(values, row, valid).event;
      e.title == Trim(e.title) && 0 < |e.title| <= MAX_TITLE_LENGTH &&
      IsNormalizedDate(e.startDate) && IsNormalizedDate(e.endDate) &&
      NormalizeCategory(e.category) == e.category && e.category in valid
  {
    var e := ClassifyRow(values, row, valid).event;
    TrimIdempotent(FieldOr(values, 0));
    NormalizedIsNormalizedDate(FieldOr(values, 1));
    if Trim(FieldOr(values, 2)) != [] {
      NormalizedIsNormalizedDate(FieldOr(values, 2));
    }
    NormalizeCategoryIdempotent(FieldOr(values, 3));
  }

  // ---------------------------------------------------------------------------
  // All rows
  // ---------------------------------------------------------------------------

  /** The normalised ids in the `validCategories` set. */
  function ValidCategories(categories: seq<CategoryConfig>): set<string> {
    set c | c in categories :: NormalizeCategory(c.id)
  }

  /** The outcome of each data line; the line at position i is row i + 3. */
  function Outcomes(dataLines: seq<string>, valid: set<string>): (outs: seq<RowOutcome>)
    ensures |outs| == |dataLines|
    ensures forall i :: 0 <= i < |dataLines| ==> outs[i] == ClassifyRow(ParseLine(dataLines[i]), i + 3, valid)
  {
    seq(|dataLines|, i requires 0 <= i < |dataLines| => ClassifyRow(ParseLine(dataLines[i]), i + 3, valid))
  }

  datatype Acc = Acc(events: seq<EventData>, errors: seq<string>, mismatches: seq<Entry>)

  /** One row's effect on `events`, `errors` and `categoryMismatches`. */
  function Step(acc: Acc, outcome: RowOutcome): Acc {
    match outcome
    case Skipped => acc
    case Failed(e) => acc.(errors := acc.errors + [ErrorMessage(e)])
    case Mismatched(c, row) => acc.(mismatches := Record(acc.mismatches, c, row))
    case Emitted(ev) => acc.(events := acc.events + [ev])
  }

  /** The three collections after the `forEach` over the outcomes. */
  function Fold(outs: seq<RowOutcome>): Acc {
    if outs == [] then Acc([], [], []) else Step(Fold(outs[..|outs| - 1]), outs[|outs| - 1])
  }

  /** The category-mismatch messages, in the Map's order. */
  function MismatchMessages(ms: seq<Entry>): (r: seq<string>)
    ensures |r| == |ms|
  {
    if ms == [] then []
    else MismatchMessages(ms[..|ms| - 1]) + [MismatchMessage(ms[|ms| - 1])]
  }

  function MismatchMessage(m: Entry): string {
    "Category \"" + m.category + "\" in CSV does not match any timeline categories. " +
    "Events with this category will not be displayed (rows: " + RowList(m.rows) + ")"
  }

  datatype CsvParseResult = CsvParseResult(events: seq<EventData>, categories: seq<CategoryConfig>, errors: seq<string>)

  /** What `parseCSVEvents` returns. */
  function ParseCsvEventsOf(csvContent: string, existingCategories: seq<CategoryConfig>): (r: CsvParseResult)
    ensures r.categories == existingCategories
  {
    var acc := Fold(Outcomes(DataLinesOf(csvContent), ValidCategories(existingCategories)));
    CsvParseResult(acc.events, existingCategories, acc.errors + MismatchMessages(acc.mismatches))
  }

  /** `parseCSVEvents`, with its `forEach` loops. */
  method ParseCsvEvents(csvContent: string, existingCategories: seq<CategoryConfig>) returns (result: CsvParseResult)
    ensures result == ParseCsvEventsOf(csvContent, existingCategories)
  {
    var dataLines := DataLinesOf(csvContent);
    var validCategories := ValidCategories(existingCategories);
    ghost var outs := Outcomes(dataLines, validCategories);
    var events: seq<EventData> := [];
    var errors: seq<string> := [];
    var categoryMismatches: seq<Entry> := [];
    for index := 0 to |dataLines|
      invariant Acc(events, errors, categoryMismatches) == Fold(outs[..index])
    {
      var values := ParseCsvLine(dataLines[index]);
      var outcome := ClassifyRow(values, index + 3, validCategories);
      match outcome {
        case Skipped =>
        case Failed(e) => errors := errors + [ErrorMessage(e)];
        case Mismatched(c, row) => categoryMismatches := Record(categoryMismatches, c, row);
        case Emitted(ev) => events := events + [ev];
      }
      FoldSnoc(outs, index);
    }
    assert outs[..|dataLines|] == outs;
    errors := AppendMismatchMessages(errors, categoryMismatches);
    result := CsvParseResult(events, existingCategories, errors);
  }

  /** The `categoryMismatches.forEach` loop pushing one message per entry. */
  method AppendMismatchMessages(errors: seq<string>, categoryMismatches: seq<Entry>) returns (r: seq<string>)
    ensures r == errors + MismatchMessages(categoryMismatches)
  {
    r := errors;
    assert errors + MismatchMessages(categoryMismatches[..0]) == errors;
    for j := 0 to |categoryMismatches|
      invariant r == errors + MismatchMessages(categoryMismatches[..j])
    {
      MessagesSnoc(categoryMismatches, j);
      AppendAssociative(errors, MismatchMessages(categoryMismatches[..j]), [MismatchMessage(categoryMismatches[j])]);
      r := r + [MismatchMessage(categoryMismatches[j])];
    }
    assert categoryMismatches[..|categoryMismatches|] == categoryMismatches;
  }

  lemma FoldSnoc(outs: seq<RowOutcome>, i: nat)
    requires i < |outs|
    ensures Fold(outs[..i + 1]) == Step(Fold(outs[..i]), outs[i])
  {
    PrefixOfPrefix(outs, i + 1, i);
  }

  lemma MessagesSnoc(ms: seq<Entry>, j: nat)
    requires j < |ms|
    ensures MismatchMessages(ms[..j + 1]) == MismatchMessages(ms[..j]) + [MismatchMessage(ms[j])]
  {
    PrefixOfPrefix(ms, j + 1, j);
  }

  // ---------------------------------------------------------------------------
  // What the fold collects
  // ---------------------------------------------------------------------------

  /** The events of the emitting rows, in row order. */
  function EventsOf(outs: seq<RowOutcome>): seq<EventData> {
    if outs == [] then []
    else
      var last := outs[|outs| - 1];
      EventsOf(outs[..|outs| - 1]) + (if last.Emitted? then [last.event] else [])
  }

  /** The messages of the failing rows, in row order. */
  function RowErrorsOf(outs: seq<RowOutcome>): seq<string> {
    if outs == [] then []
    else
      var last := outs[|outs| - 1];
      RowErrorsOf(outs[..|outs| - 1]) + (if last.Failed? then [ErrorMessage(last.error)] else [])
  }

  /** The (raw category, row) pairs of the mismatching rows, in row order. */
  function MismatchPairsOf(outs: seq<RowOutcome>): seq<(string, nat)> {
    if outs == [] then []
    else
      var last := outs[|outs| - 1];
      MismatchPairsOf(outs[..|outs| - 1]) + (if last.Mismatched? then [(last.category, last.row)] else [])
  }

  function SkippedCount(outs: seq<RowOutcome>): nat {
    if outs == [] then 0
    else SkippedCount(outs[..|outs| - 1]) + (if outs[|outs| - 1].Skipped? then 1 else 0)
  }

  /** The fold's events are the emitted events, in row order. */
  lemma {:induction false} FoldEvents(outs: seq<RowOutcome>)
    ensures Fold(outs).events == EventsOf(outs)
  {
    if outs != [] {
      FoldEvents(outs[..|outs| - 1]);
    }
  }

  /** The fold's errors are the row errors, in row order. */
  lemma {:induction false} FoldErrors(outs: seq<RowOutcome>)
    ensures Fold(outs).errors == RowErrorsOf(outs)
  {
    if outs != [] {
      FoldErrors(outs[..|outs| - 1]);
    }
  }

  /** The fold's Map is the mismatch pairs recorded in row order. */
  lemma {:induction false} FoldMismatches(outs: seq<RowOutcome>)
    ensures Fold(outs).mismatches == Recorded(MismatchPairsOf(outs))
  {
    if outs != [] {
      var init := outs[..|outs| - 1];
      FoldMismatches(init);
      var pairs := MismatchPairsOf(outs);
      if outs[|outs| - 1].Mismatched? {
        assert pairs[..|pairs| - 1] == MismatchPairsOf(init);
      } else {
        assert pairs == MismatchPairsOf(init);
      }
    }
  }

  /** Every row that is not skipped yields exactly one event, one error or one mismatch. */
  lemma {:induction false} OneResultPerRow(outs: seq<RowOutcome>)
    ensures |EventsOf(outs)| + |RowErrorsOf(outs)| + |MismatchPairsOf(outs)| + SkippedCount(outs) == |outs|
  {
    if outs != [] {
      OneResultPerRow(outs[..|outs| - 1]);
    }
  }
}
